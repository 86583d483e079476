/** Fixed addresses: the directory of one network in etcd, address by address the pod that holds it. */
module FixIP {
  import opened Words
  import opened RangeSets
  import opened FirstFit
  import FixInfo
  import Text

  const LAST_ADDRESS: uint32 := TWO32 - 1

  type Fixed = map<uint32, string>

  /* ---------- keys ---------- */

  function Key(dir: string, a: uint32): string {
    dir + "/" + Text.Pad(a, 10)
  }

  /** A key names its address, and keys of one directory sort as their addresses do. */
  lemma KeysAreAddresses(dir: string, a: uint32, b: uint32)
    ensures Text.AllDigits(Text.Base(Key(dir, a))) && Text.ParseNat(Text.Base(Key(dir, a))) == a
    ensures Text.LexLess(Key(dir, a), Key(dir, b)) <==> a < b
  {
    var x, y := Text.Pad(a, 10), Text.Pad(b, 10);
    assert Text.Pow10(5) == 100000;
    Text.BaseOfJoin(dir, x);
    Text.ParsePad(a, 10);
    Text.LexCommonPrefix(dir + "/", x, y);
    assert x + "" == x && y + "" == y;
    if a < b {
      Text.PadOrder(a, b, 10, "", "");
    } else if b < a {
      Text.PadOrder(b, a, 10, "", "");
    } else {
      Text.LexIrreflexive(x);
    }
  }

  /** A prefix read sorted by key. */
  ghost predicate IsListing(s: seq<uint32>, fixed: Fixed) {
    && (forall k :: k in s <==> k in fixed)
    && (forall i, j :: 0 <= i < j < |s| ==> s[i] < s[j])
  }

  /* ---------- what one call answers ---------- */

  predicate InRange(r: Range, a: uint32) {
    r.start <= a <= r.end
  }

  predicate IsHeld(r: Range, fixed: Fixed, info: string, k: uint32) {
    k in fixed && InRange(r, k) && fixed[k] == info
  }

  ghost predicate IsFirstHeld(r: Range, fixed: Fixed, info: string, k: uint32) {
    IsHeld(r, fixed, info, k) && forall j :: IsHeld(r, fixed, info, j) ==> k <= j
  }

  /** The addresses a call may give to a pod it does not find. A record inside the range but below its effective
      start draws the free addresses above it in, `RangeEnd + 1` wraps at the last address of all, and the
      address 0 stands for "not found". */
  ghost predicate Offered(r: Range, fixed: Fixed, info: string, a: uint32) {
    if IsHeld(r, fixed, info, 0) then
      EffectiveStart(r) <= a <= r.end < LAST_ADDRESS
    else
      && a <= r.end && a !in fixed
      && (EffectiveStart(r) <= a || exists k :: k in fixed && InRange(r, k) && k < a)
      && (r.end < LAST_ADDRESS || exists k :: k in fixed && InRange(r, k) && a < k)
  }

  ghost predicate Answers(r: Range, fixed: Fixed, info: string, res: Option<uint32>) {
    if exists k :: k != 0 && IsFirstHeld(r, fixed, info, k) then
      res.Some? && IsFirstHeld(r, fixed, info, res.value)
    else
      && (res.Some? <==> exists a :: Offered(r, fixed, info, a))
      && (res.Some? ==> Offered(r, fixed, info, res.value))
  }

  /** The pod's records outside the range that a call meets, hence deletes. */
  ghost predicate IsStray(r: Range, fixed: Fixed, info: string, k: uint32) {
    && k in fixed && fixed[k] == info && !InRange(r, k)
    && (k < r.start || forall j :: !IsHeld(r, fixed, info, j))
  }

  ghost function Swept(r: Range, fixed: Fixed, info: string): Fixed {
    map k | k in fixed && !IsStray(r, fixed, info, k) :: fixed[k]
  }

  /** The free addresses in front of a listed record of the range. */
  ghost predicate InGap(r: Range, fixed: Fixed, s: seq<uint32>, a: uint32) {
    && a !in fixed
    && (EffectiveStart(r) <= a || exists k :: k in s && InRange(r, k) && k < a)
    && exists k :: k in s && InRange(r, k) && a < k
  }

  class FixDir {
    var fixed: Fixed

    method List() returns (s: seq<uint32>)
      ensures IsListing(s, fixed)
    {
      s := [];
      var rest := fixed.Keys;
      while rest != {}
        invariant rest <= fixed.Keys
        invariant forall k :: k in s <==> k in fixed && k !in rest
        invariant forall i, j :: 0 <= i < j < |s| ==> s[i] < s[j]
        invariant forall i, k :: 0 <= i < |s| && k in rest ==> s[i] < k
        decreases |rest|
      {
        var m :| m in rest;
        var others := rest - {m};
        while others != {}
          invariant m in rest && others <= rest
          invariant forall k :: k in rest && k !in others ==> m <= k
          decreases |others|
        {
          var k :| k in others;
          others := others - {k};
          if k < m {
            m := k;
          }
        }
        rest := rest - {m};
        s := s + [m];
      }
    }

    method Put(a: uint32, info: string)
      modifies this
      ensures fixed == old(fixed)[a := info]
    {
      fixed := fixed[a := info];
    }

    method Delete(a: uint32)
      modifies this
      ensures fixed == old(fixed) - {a}
    {
      fixed := fixed - {a};
    }
  }

  /* ---------- the scan ---------- */

  /** The scan after the first `i` records: none of them is held by the pod, `seen` is the last one of the range
      (or -1), the cursor follows it, and the collected addresses are the gaps so far. */
  ghost predicate Scanned(r: Range, fixed: Fixed, info: string, kvs: seq<uint32>, i: nat,
                          seen: int, last: uint32, free: seq<uint32>)
  {
    && i <= |kvs|
    && (forall k :: k in kvs[..i] ==> !IsHeld(r, fixed, info, k))
    && (forall k :: k in kvs[..i] && InRange(r, k) ==> k <= seen)
    && (if seen < 0 then last == EffectiveStart(r)
        else seen < TWO32 && seen in kvs[..i] && InRange(r, seen) && last == Add32(seen, 1))
    && forall a: uint32 :: a in free <==> InGap(r, fixed, kvs[..i], a)
  }

  ghost predicate Extends(more: seq<uint32>, free: seq<uint32>, lo: int, hi: int) {
    forall a: uint32 :: a in more <==> a in free || lo <= a < hi
  }

  ghost function SweptTo(r: Range, fixed: Fixed, info: string, met: seq<uint32>): Fixed {
    map k | k in fixed && !(k in met && fixed[k] == info && !InRange(r, k)) :: fixed[k]
  }

  lemma ScanStart(r: Range, fixed: Fixed, info: string, kvs: seq<uint32>, last: uint32)
    requires last == EffectiveStart(r)
    ensures Scanned(r, fixed, info, kvs, 0, -1, last, [])
    ensures SweptTo(r, fixed, info, kvs[..0]) == fixed
  {
    hide EffectiveStart;
  }

  lemma Listed(kvs: seq<uint32>, fixed: Fixed, i: nat)
    requires IsListing(kvs, fixed) && i < |kvs|
    ensures kvs[i] in fixed
  {
  }

  lemma SweepNext(r: Range, fixed: Fixed, info: string, kvs: seq<uint32>, i: nat)
    requires i < |kvs| && kvs[i] in fixed
    ensures SweptTo(r, fixed, info, kvs[..i + 1])
         == if fixed[kvs[i]] == info && !InRange(r, kvs[i]) then SweptTo(r, fixed, info, kvs[..i]) - {kvs[i]}
            else SweptTo(r, fixed, info, kvs[..i])
  {
    assert kvs[..i + 1] == kvs[..i] + [kvs[i]];
  }

  lemma ScanSkip(r: Range, fixed: Fixed, info: string, kvs: seq<uint32>, i: nat, seen: int, last: uint32,
                 free: seq<uint32>)
    requires Scanned(r, fixed, info, kvs, i, seen, last, free)
    requires i < |kvs| && !InRange(r, kvs[i])
    requires IsListing(kvs, fixed)
    ensures Scanned(r, fixed, info, kvs, i + 1, seen, last, free)
  {
    hide EffectiveStart;
    assert kvs[..i + 1] == kvs[..i] + [kvs[i]];
    forall a: uint32 ensures InGap(r, fixed, kvs[..i + 1], a) <==> InGap(r, fixed, kvs[..i], a) {
      GapSkip(r, fixed, kvs, i, a);
    }
  }

  lemma GapSkip(r: Range, fixed: Fixed, kvs: seq<uint32>, i: nat, a: uint32)
    requires i < |kvs| && !InRange(r, kvs[i])
    ensures InGap(r, fixed, kvs[..i + 1], a) <==> InGap(r, fixed, kvs[..i], a)
  {
    hide EffectiveStart;
    assert kvs[..i + 1] == kvs[..i] + [kvs[i]];
  }

  /** A record of the range held by someone else adds the gap in front of it. */
  lemma ScanStep(r: Range, fixed: Fixed, info: string, kvs: seq<uint32>, i: nat, seen: int, last: uint32,
                 free: seq<uint32>, more: seq<uint32>)
    requires Scanned(r, fixed, info, kvs, i, seen, last, free)
    requires i < |kvs| && InRange(r, kvs[i]) && !IsHeld(r, fixed, info, kvs[i])
    requires IsListing(kvs, fixed)
    requires Extends(more, free, last, kvs[i])
    ensures Scanned(r, fixed, info, kvs, i + 1, kvs[i], Add32(kvs[i], 1), more)
  {
    assert kvs[..i + 1] == kvs[..i] + [kvs[i]];
    forall a: uint32 ensures a in more <==> InGap(r, fixed, kvs[..i + 1], a) {
      GapStep(r, fixed, info, kvs, i, seen, last, free, a);
    }
  }

  lemma GapStep(r: Range, fixed: Fixed, info: string, kvs: seq<uint32>, i: nat, seen: int, last: uint32,
                free: seq<uint32>, a: uint32)
    requires Scanned(r, fixed, info, kvs, i, seen, last, free)
    requires i < |kvs| && InRange(r, kvs[i]) && IsListing(kvs, fixed)
    ensures InGap(r, fixed, kvs[..i + 1], a) <==> a in free || last <= a < kvs[i]
  {
    assert kvs[..i + 1] == kvs[..i] + [kvs[i]];
    assert a in free <==> InGap(r, fixed, kvs[..i], a);
    assert forall k :: k in kvs[..i] ==> k < kvs[i];
    Unlisted(r, fixed, kvs, i, seen, a);
  }

  /** Between the last record seen and the current one no address is taken. */
  lemma Unlisted(r: Range, fixed: Fixed, kvs: seq<uint32>, i: nat, seen: int, a: uint32)
    requires i <= |kvs| && IsListing(kvs, fixed)
    requires forall k :: k in kvs[..i] && InRange(r, k) ==> k <= seen
    ensures seen < a && InRange(r, a) && (i < |kvs| ==> a < kvs[i]) ==> a !in fixed
  {
    if seen < a && InRange(r, a) && a in fixed {
      var j :| 0 <= j < |kvs| && kvs[j] == a;
    }
  }

  /** Stopping at a record of the pod: it is the first one, and the strays in front of it are gone. */
  lemma ScanStop(r: Range, fixed: Fixed, info: string, kvs: seq<uint32>, i: nat, seen: int, last: uint32,
                 free: seq<uint32>)
    requires Scanned(r, fixed, info, kvs, i, seen, last, free)
    requires i < |kvs| && IsHeld(r, fixed, info, kvs[i]) && IsListing(kvs, fixed)
    ensures IsFirstHeld(r, fixed, info, kvs[i])
    ensures kvs[i] != 0 ==> Answers(r, fixed, info, Some(kvs[i]))
    ensures SweptTo(r, fixed, info, kvs[..i]) == Swept(r, fixed, info)
    ensures kvs[i] == 0 ==> free == [] && last == EffectiveStart(r)
  {
    hide EffectiveStart;
    forall k | k in fixed ensures k in kvs[..i] <==> k < kvs[i] {
      var j :| 0 <= j < |kvs| && kvs[j] == k;
    }
    assert 0 < i ==> kvs[0] < kvs[i];
    if kvs[i] == 0 {
      assert |free| > 0 ==> InGap(r, fixed, kvs[..i], free[0]);
    }
  }

  /** The last gap completes the addresses on offer. */
  lemma ScanEnd(r: Range, fixed: Fixed, info: string, kvs: seq<uint32>, seen: int, last: uint32,
                free: seq<uint32>, more: seq<uint32>)
    requires Scanned(r, fixed, info, kvs, |kvs|, seen, last, free) && IsListing(kvs, fixed)
    requires Extends(more, free, last, Add32(r.end, 1))
    ensures forall k :: !IsHeld(r, fixed, info, k)
    ensures SweptTo(r, fixed, info, kvs) == Swept(r, fixed, info)
    ensures forall a :: a in more <==> Offered(r, fixed, info, a)
  {
    assert kvs[..|kvs|] == kvs;
    forall a: uint32 ensures a in more <==> Offered(r, fixed, info, a) {
      Unlisted(r, fixed, kvs, |kvs|, seen, a);
      LastGap(r, fixed, info, kvs, seen, last, free, a);
    }
  }

  lemma LastGap(r: Range, fixed: Fixed, info: string, kvs: seq<uint32>, seen: int, last: uint32, free: seq<uint32>,
                a: uint32)
    requires Scanned(r, fixed, info, kvs, |kvs|, seen, last, free) && IsListing(kvs, fixed)
    ensures a in free || last <= a < Add32(r.end, 1) <==> Offered(r, fixed, info, a)
  {
    assert kvs[..|kvs|] == kvs;
    assert a in free <==> InGap(r, fixed, kvs, a);
    Unlisted(r, fixed, kvs, |kvs|, seen, a);
  }

  lemma OnOffer(r: Range, fixed: Fixed, info: string, kvs: seq<uint32>, found: bool, seen: int, last: uint32,
                free: seq<uint32>, more: seq<uint32>)
    requires IsListing(kvs, fixed) && Extends(more, free, last, Add32(r.end, 1))
    requires if found then IsFirstHeld(r, fixed, info, 0) && free == [] && last == EffectiveStart(r)
             else Scanned(r, fixed, info, kvs, |kvs|, seen, last, free)
    ensures forall a :: a in more <==> Offered(r, fixed, info, a)
    ensures !found ==> SweptTo(r, fixed, info, kvs[..|kvs|]) == Swept(r, fixed, info)
    ensures !found ==> forall k :: !IsHeld(r, fixed, info, k)
    ensures if more == [] then Answers(r, fixed, info, None)
            else forall a :: a in more ==> Answers(r, fixed, info, Some(a))
  {
    if found {
      hide EffectiveStart;
      assert IsHeld(r, fixed, info, 0);
    } else {
      ScanEnd(r, fixed, info, kvs, seen, last, free, more);
      assert kvs[..|kvs|] == kvs;
    }
    if |more| > 0 {
      assert more[0] in more && Offered(r, fixed, info, more[0]);
    }
    assert !exists k :: k != 0 && IsFirstHeld(r, fixed, info, k);
  }

  /** IPAMApplyFixIP; `pick` stands for the random number, and `offers` is the list it picks from. */
  method ApplyFixIP(em: FixDir, r: Range, info: string, pick: nat)
    returns (res: Option<uint32>, ghost offers: seq<uint32>)
    modifies em
    ensures Answers(r, old(em.fixed), info, res)
    ensures (!exists k :: k != 0 && IsFirstHeld(r, old(em.fixed), info, k)) ==>
              && (forall a :: a in offers <==> Offered(r, old(em.fixed), info, a))
              && res == if offers == [] then None else Some(offers[pick % |offers|])
    ensures em.fixed == if res.Some? then Swept(r, old(em.fixed), info)[res.value := info]
                        else Swept(r, old(em.fixed), info)
  {
    hide Answers, Offered, Swept, SweptTo, IsListing, IsFirstHeld, Scanned;
    ghost var was := em.fixed;
    var kvs := em.List();
    var values := em.fixed;
    var freeIPs: seq<uint32> := [];
    var fixIP: uint32 := 0;
    var rips: uint32, ripe: uint32 := r.start, r.end;
    var tmp := Add32(r.subnet.addr, 2);
    if rips < tmp {
      rips := tmp;
    }
    var last: uint32 := rips;
    var i := 0;
    ghost var seen: int := -1;
    ghost var found := false;
    ScanStart(r, was, info, kvs, last);
    while i < |kvs|
      invariant 0 <= i <= |kvs| && !found && fixIP == 0
      invariant Scanned(r, was, info, kvs, i, seen, last, freeIPs)
      invariant em.fixed == SweptTo(r, was, info, kvs[..i])
    {
      hide Scanned, EffectiveStart, Answers, Swept, SweptTo, IsFirstHeld, IsListing;
      Listed(kvs, was, i);
      var fix := kvs[i];
      var v := values[fix];
      SweepNext(r, was, info, kvs, i);
      if r.start > fix || r.end < fix {
        if v == info {
          em.Delete(fix);
        }
        ScanSkip(r, was, info, kvs, i, seen, last, freeIPs);
        i := i + 1;
        continue;
      }
      if v == info {
        ScanStop(r, was, info, kvs, i, seen, last, freeIPs);
        fixIP := fix;
        found := true;
        break;
      }
      ghost var before := freeIPs;
      if Sub32(fix, last) > 0 {
        var a := last;
        while a < fix
          invariant last <= a <= fix || a == last
          invariant Extends(freeIPs, before, last, a)
        {
          freeIPs := freeIPs + [a];
          a := a + 1;
        }
      }
      ScanStep(r, was, info, kvs, i, seen, last, before, freeIPs);
      last := Add32(fix, 1);
      seen := fix;
      i := i + 1;
    }
    if fixIP == 0 {
      var a := last;
      ghost var before := freeIPs;
      while a < Add32(ripe, 1)
        invariant last <= a <= Add32(ripe, 1) || a == last
        invariant Extends(freeIPs, before, last, a)
      {
        freeIPs := freeIPs + [a];
        a := a + 1;
      }
      OnOffer(r, was, info, kvs, found, seen, last, before, freeIPs);
      if |freeIPs| > 0 {
        fixIP := freeIPs[pick % |freeIPs|];
      } else {
        return None, [];
      }
    }
    em.Put(fixIP, info);
    return Some(fixIP), freeIPs;
  }

  /** What a call leaves of the records besides its answer: all of other pods and all in the range. Of the pod's own
      records out of the range those below it go, and those above it if the pod holds nothing in the range. */
  lemma SweptExactly(r: Range, fixed: Fixed, info: string, k: uint32)
    requires k in fixed
    ensures var swept := Swept(r, fixed, info);
            var held := exists j: uint32 :: r.start <= j <= r.end && j in fixed && fixed[j] == info;
            && (fixed[k] != info || r.start <= k <= r.end ==> k in swept)
            && (fixed[k] == info && k < r.start ==> k !in swept)
            && (fixed[k] == info && r.start <= r.end < k ==> (k in swept <==> held))
            && (k in swept ==> swept[k] == fixed[k])
  {
    assert forall j: uint32 :: IsHeld(r, fixed, info, j) <==> r.start <= j <= r.end && j in fixed && fixed[j] == info;
  }

  /** A pod with records in the range gets the one with the lowest address, but for the address 0. */
  lemma KnownPodKeepsLowest(r: Range, fixed: Fixed, info: string, res: Option<uint32>, k: uint32)
    requires Answers(r, fixed, info, res) && k in fixed && r.start <= k <= r.end && fixed[k] == info
    requires !IsHeld(r, fixed, info, 0)
    ensures res.Some? && res.value in fixed && fixed[res.value] == info && r.start <= res.value <= k
  {
    var m := LowestHeld(r, fixed, info, k);
    assert IsHeld(r, fixed, info, k);
  }

  lemma {:induction false} LowestHeld(r: Range, fixed: Fixed, info: string, k: uint32) returns (m: uint32)
    requires IsHeld(r, fixed, info, k)
    ensures IsFirstHeld(r, fixed, info, m) && m <= k
    decreases k
  {
    if j: uint32 :| IsHeld(r, fixed, info, j) && j < k {
      m := LowestHeld(r, fixed, info, j);
    } else {
      m := k;
    }
  }

  /* ---------- one range for every call ---------- */

  /** What calls with one range leave behind: addresses of that range, at most one for a pod. */
  ghost predicate Consistent(r: Range, fixed: Fixed) {
    && (forall k :: k in fixed ==> EffectiveStart(r) <= k <= r.end)
    && (forall j, k :: j in fixed && k in fixed && fixed[j] == fixed[k] ==> j == k)
    && (r.end == LAST_ADDRESS ==> fixed == map[])
  }

  ghost predicate IsFull(r: Range, fixed: Fixed) {
    forall a: uint32 :: EffectiveStart(r) <= a <= r.end ==> a in fixed
  }

  /** The intended service: a known pod keeps its address; a new one gets an address nobody holds,
      unless the range is full or ends at the last address of all. */
  ghost predicate Serves(r: Range, fixed: Fixed, info: string, res: Option<uint32>) {
    if exists k :: k in fixed && fixed[k] == info then
      res.Some? && res.value in fixed && fixed[res.value] == info
    else
      && (res.None? <==> IsFull(r, fixed) || r.end == LAST_ADDRESS)
      && (res.Some? ==> EffectiveStart(r) <= res.value <= r.end && res.value !in fixed)
  }

  lemma ServesExactly(r: Range, fixed: Fixed, info: string, res: Option<uint32>)
    requires r.Valid() && Consistent(r, fixed)
    ensures Answers(r, fixed, info, res) <==> Serves(r, fixed, info, res)
    ensures Swept(r, fixed, info) == fixed
  {
    EffectiveStartBounds(r);
    hide Range.Valid, EffectiveStart;
    if k :| k in fixed && fixed[k] == info {
      assert IsHeld(r, fixed, info, k) && IsFirstHeld(r, fixed, info, k);
    } else {
      assert forall a: uint32 :: Offered(r, fixed, info, a) <==>
        EffectiveStart(r) <= a <= r.end && a !in fixed && r.end < LAST_ADDRESS;
    }
  }

  /** A record that was answered is kept or added; nothing else changes. */
  lemma RecordKeepsConsistent(r: Range, fixed: Fixed, info: string, a: uint32)
    requires r.Valid() && Consistent(r, fixed) && Serves(r, fixed, info, Some(a))
    ensures Consistent(r, fixed[a := info])
    ensures a in fixed ==> fixed[a := info] == fixed
  {
  }

  ghost predicate Keeps(was: Fixed, now: Fixed) {
    forall k :: k in was ==> k in now && now[k] == was[k]
  }

  /** The first addresses are recorded for the first indices of the pod. */
  ghost predicate Recorded(fixed: Fixed, ns: string, pod: string, ips: seq<uint32>) {
    forall i :: 0 <= i < |ips| ==> ips[i] in fixed && fixed[ips[i]] == FixInfo.Generate(ns, pod, i)
  }

  /** allocateFixIP: one address for each index of the pod. A failure leaves the records made so far. */
  method AllocateFixIP(em: FixDir, r: Range, ns: string, pod: string, num: nat, picks: seq<nat>)
    returns (res: Option<seq<uint32>>)
    requires r.Valid() && |picks| == num
    modifies em
    ensures ns == "" || pod == "" ==> res.None? && em.fixed == old(em.fixed)
    ensures res.Some? ==> |res.value| == num
    ensures Consistent(r, old(em.fixed)) ==>
              && Consistent(r, em.fixed) && Keeps(old(em.fixed), em.fixed)
              && (res.Some? ==> Recorded(em.fixed, ns, pod, res.value))
              && (res.None? && ns != "" && pod != "" ==> IsFull(r, em.fixed) || r.end == LAST_ADDRESS)
  {
    hide IsFull, Answers, FixInfo.Generate, EffectiveStart, Swept;
    if pod == "" || ns == "" {
      return None;
    }
    ghost var was := em.fixed;
    ghost var clean := Consistent(r, was);
    var ips: seq<uint32> := [];
    for i := 0 to num
      invariant |ips| == i
      invariant clean ==> Consistent(r, em.fixed) && Keeps(was, em.fixed) && Recorded(em.fixed, ns, pod, ips)
    {
      hide Consistent, IsFull, Answers, FixInfo.Generate, EffectiveStart, Swept;
      ghost var before := em.fixed;
      var fixInfo := FixInfo.Generate(ns, pod, i);
      var n, _ := ApplyFixIP(em, r, fixInfo, picks[i]);
      if clean {
        ServesExactly(r, before, fixInfo, n);
      }
      if n.None? {
        return None;
      }
      if clean {
        RecordKeepsConsistent(r, before, fixInfo, n.value);
      }
      ips := ips + [n.value];
    }
    return Some(ips);
  }

  /** The indices of a pod with a clean name get different addresses. */
  lemma IndicesDiffer(fixed: Fixed, ns: string, pod: string, ips: seq<uint32>)
    requires FixInfo.CleanNamespace(ns) && '/' !in pod
    requires Recorded(fixed, ns, pod, ips)
    ensures forall i, j :: 0 <= i < j < |ips| ==> ips[i] != ips[j]
  {
    forall i, j | 0 <= i < j < |ips| ensures ips[i] != ips[j] {
      if ips[i] == ips[j] {
        FixInfo.GenerateInjective(ns, pod, i, ns, pod, j);
      }
    }
  }

  /* ---------- every run ---------- */

  /** An address read as available or known, not yet written. */
  datatype Flight = Flight(info: string, addr: uint32)
  datatype State = State(fixed: Fixed, inflight: Option<Flight>)

  /** The directory lock admits one call at a time; the collector takes no lock and may delete in between. */
  datatype Action = Begin(info: string, res: Option<uint32>) | Finish | Collect(addr: uint32)

  ghost predicate Next(r: Range, s: State, a: Action, t: State) {
    match a
    case Begin(info, res) =>
      && s.inflight.None? && Answers(r, s.fixed, info, res)
      && t == State(Swept(r, s.fixed, info), if res.Some? then Some(Flight(info, res.value)) else None)
    case Finish =>
      s.inflight.Some? && t == State(s.fixed[s.inflight.value.addr := s.inflight.value.info], None)
    case Collect(addr) =>
      t == s.(fixed := s.fixed - {addr})
  }

  ghost predicate IsRun(r: Range, states: seq<State>, actions: seq<Action>) {
    && |states| == |actions| + 1 && states[0] == State(map[], None)
    && forall i :: 0 <= i < |actions| ==> Next(r, states[i], actions[i], states[i + 1])
  }

  ghost predicate Honest(r: Range, s: State) {
    && Consistent(r, s.fixed)
    && (s.inflight.Some? ==>
          var Flight(info, addr) := s.inflight.value;
          && EffectiveStart(r) <= addr <= r.end < LAST_ADDRESS
          && (addr in s.fixed ==> s.fixed[addr] == info)
          && forall k :: k in s.fixed && s.fixed[k] == info ==> k == addr)
  }

  lemma StepKeepsHonest(r: Range, s: State, a: Action, t: State)
    requires r.Valid() && Honest(r, s) && Next(r, s, a, t)
    ensures Honest(r, t)
  {
    hide EffectiveStart, Range.Valid, Answers, Swept;
    if a.Begin? {
      ServesExactly(r, s.fixed, a.info, a.res);
    }
  }

  lemma {:induction false} RunIsHonest(r: Range, states: seq<State>, actions: seq<Action>, i: nat)
    requires r.Valid() && IsRun(r, states, actions) && i < |states|
    ensures Honest(r, states[i])
  {
    if i > 0 {
      RunIsHonest(r, states, actions, i - 1);
      StepKeepsHonest(r, states[i - 1], actions[i - 1], states[i]);
    }
  }

  /** In every run each call is served as intended: known pods keep their address, new ones get a free one,
      and a new one is refused exactly when there is none (or the range ends at the last address of all). */
  lemma EveryCallIsServed(r: Range, states: seq<State>, actions: seq<Action>, i: nat)
    requires r.Valid() && IsRun(r, states, actions) && i < |actions| && actions[i].Begin?
    ensures Serves(r, states[i].fixed, actions[i].info, actions[i].res)
    ensures states[i + 1].fixed == states[i].fixed
  {
    hide EffectiveStart, Range.Valid, Answers, Swept, Serves;
    RunIsHonest(r, states, actions, i);
    assert Next(r, states[i], actions[i], states[i + 1]);
    ServesExactly(r, states[i].fixed, actions[i].info, actions[i].res);
  }

  ghost predicate Holds(s: State, info: string, addr: uint32) {
    addr in s.fixed && s.fixed[addr] == info
  }

  /** A record stays until the collector deletes it, whatever the calls in between. */
  lemma {:induction false} RecordStays(r: Range, states: seq<State>, actions: seq<Action>, i: nat, j: nat,
                      info: string, addr: uint32)
    requires r.Valid() && IsRun(r, states, actions) && i <= j < |states|
    requires Holds(states[i], info, addr)
    requires forall m :: i <= m < j ==> actions[m] != Collect(addr)
    ensures Holds(states[j], info, addr)
    decreases j
  {
    if i < j {
      RecordStays(r, states, actions, i, j - 1, info, addr);
      RunIsHonest(r, states, actions, j - 1);
      var s, a := states[j - 1], actions[j - 1];
      assert Next(r, s, a, states[j]);
      if a.Begin? {
        ServesExactly(r, s.fixed, a.info, a.res);
      }
    }
  }

  /** Sticky: until its record is collected, every later call of the pod returns the same address. */
  lemma FixedIsSticky(r: Range, states: seq<State>, actions: seq<Action>, i: nat, j: nat, info: string, addr: uint32)
    requires r.Valid() && IsRun(r, states, actions) && i <= j < |actions|
    requires Holds(states[i], info, addr)
    requires forall m :: i <= m < j ==> actions[m] != Collect(addr)
    requires actions[j].Begin? && actions[j].info == info
    ensures actions[j].res == Some(addr)
  {
    RecordStays(r, states, actions, i, j, info, addr);
    RunIsHonest(r, states, actions, j);
    EveryCallIsServed(r, states, actions, j);
  }

  /** The call in flight is about to write `addr` for `info`. */
  ghost predicate Writes(s: State, a: Action, info: string, addr: uint32) {
    a.Finish? && s.inflight == Some(Flight(info, addr))
  }

  /** Injective over time: an address goes to another pod only after the collector deleted the first record. */
  lemma NeverReassigned(r: Range, states: seq<State>, actions: seq<Action>, i: nat, j: nat,
                        addr: uint32, info: string, other: string)
    requires r.Valid() && IsRun(r, states, actions) && i < j < |actions|
    requires Writes(states[i], actions[i], info, addr)
    requires Writes(states[j], actions[j], other, addr) && other != info
    ensures exists m :: i < m < j && actions[m] == Collect(addr)
  {
    hide EffectiveStart, Range.Valid, Answers, Swept;
    if forall m :: i < m < j ==> actions[m] != Collect(addr) {
      assert Next(r, states[i], actions[i], states[i + 1]);
      assert Holds(states[i + 1], info, addr);
      RecordStays(r, states, actions, i + 1, j, info, addr);
      RunIsHonest(r, states, actions, j);
    }
  }
}

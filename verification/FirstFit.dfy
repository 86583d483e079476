/** Finding the lowest free block of a range among the leases of a network, in 32-bit arithmetic. */
module FirstFit {
  import opened Words
  import opened Blocks
  import opened RangeSets

  /** The first address the scan may hand out: the range start, but at least the third address of the subnet. */
  function EffectiveStart(r: Range): uint32 {
    var third := Add32(r.subnet.addr, 2);
    if r.start < third then third else r.start
  }

  lemma EffectiveStartBounds(r: Range)
    requires r.Valid()
    ensures 2 <= EffectiveStart(r) <= r.end + 2
    ensures EffectiveStart(r) == Max(r.start, r.subnet.addr + 2)
  {
  }

  /** Where the scan over the leases leaves its cursor. */
  function Cursor(leases: seq<SimpleRange>, last: uint32, hi: uint32, num: nat): uint32 {
    if leases == [] then last
    else
      var l := leases[0];
      if l.start == 0 || l.start > hi then Cursor(leases[1..], last, hi, num)
      else if Sub32(l.start, last) < num then Cursor(leases[1..], Add32(Min(l.end, hi), 1), hi, num)
      else last
  }

  /** What ipamGetFreeIPRange returns for a listing of the leases. */
  function FreeRange(leases: seq<SimpleRange>, r: Range, n: nat): Option<SimpleRange>
    requires n < 32
  {
    var c := Cursor(leases, EffectiveStart(r), r.end, Pow2(n));
    if Sub32(r.end, c) >= Pow2(n) - 1 then Some(Segment(c, n)) else None
  }

  /** ipamGetFreeIPRange, after the listing has been read. */
  method GetFreeIPRange(leases: seq<SimpleRange>, r: Range, n: nat) returns (res: Option<SimpleRange>)
    requires n < 32
    ensures res == FreeRange(leases, r, n)
  {
    var num := Pow2(n);
    Pow2Below32(n);
    var rips, ripe := r.start, r.end;
    var tmp := Add32(r.subnet.addr, 2);
    if rips < tmp {
      rips := tmp;
    }
    var last := rips;
    var i := 0;
    while i < |leases|
      invariant 0 <= i <= |leases|
      invariant Cursor(leases[i..], last, ripe, num) == Cursor(leases, EffectiveStart(r), ripe, num)
    {
      assert leases[i..][0] == leases[i] && leases[i..][1..] == leases[i + 1..];
      var ips, ipe := leases[i].start, leases[i].end;
      i := i + 1;
      if ips == 0 || ips > ripe {
        continue;
      }
      if ipe > ripe {
        ipe := ripe;
      }
      if Sub32(ips, last) < num {
        last := Add32(ipe, 1);
        continue;
      }
      i := i - 1;
      break;
    }
    if Sub32(ripe, last) >= num - 1 {
      var sips := last;
      var sipe := Sub32(Add32(last, num), 1);
      return Some(SimpleRange(sips, sipe));
    }
    return None;
  }

  lemma {:induction false} CursorIgnores(leases: seq<SimpleRange>, k: nat, last: uint32, hi: uint32, num: nat)
    requires k < |leases| && (leases[k].start == 0 || hi < leases[k].start)
    ensures Cursor(leases, last, hi, num) == Cursor(leases[..k] + leases[k + 1..], last, hi, num)
    decreases k
  {
    if k > 0 {
      var rest := leases[1..];
      assert (leases[..k] + leases[k + 1..])[1..] == rest[..k - 1] + rest[k..];
      CursorIgnores(rest, k - 1, last, hi, num);
      CursorIgnores(rest, k - 1, Add32(Min(leases[0].end, hi), 1), hi, num);
    } else {
      assert leases[..0] + leases[1..] == leases[1..];
    }
  }

  /** A lease at address 0, which stands for a key that cannot be read, or beyond the range end has no influence. */
  lemma ScanIgnores(leases: seq<SimpleRange>, k: nat, r: Range, n: nat)
    requires n < 32 && k < |leases| && (leases[k].start == 0 || r.end < leases[k].start)
    ensures FreeRange(leases, r, n) == FreeRange(leases[..k] + leases[k + 1..], r, n)
  {
    CursorIgnores(leases, k, EffectiveStart(r), r.end, Pow2(n));
  }

  /* ---------- what first fit means ---------- */

  ghost predicate Sorted(leases: seq<SimpleRange>) {
    && (forall i :: 0 <= i < |leases| ==> leases[i].start <= leases[i].end)
    && (forall i, j :: 0 <= i < j < |leases| ==> leases[i].end < leases[j].start)
  }

  ghost predicate NoneStartsBelow(leases: seq<SimpleRange>, lo: int) {
    forall i :: 0 <= i < |leases| ==> lo <= leases[i].start
  }

  /** Some lease meets the `num` addresses from `s`. */
  ghost predicate Blocked(leases: seq<SimpleRange>, s: int, num: nat) {
    exists i :: 0 <= i < |leases| && leases[i].start <= s + num - 1 && s <= leases[i].end
  }

  ghost predicate Leased(leases: seq<SimpleRange>, a: int) {
    exists i :: 0 <= i < |leases| && leases[i].Has(a)
  }

  ghost predicate HasFreeBlock(leases: seq<SimpleRange>, lo: int, hi: int, num: nat) {
    exists s :: lo <= s && s + num - 1 <= hi && !Blocked(leases, s, num)
  }

  /** The result is the lowest free block of `[lo, hi]`, or there is none. */
  ghost predicate IsFirstFit(leases: seq<SimpleRange>, lo: int, hi: int, num: nat, res: Option<SimpleRange>) {
    match res
    case Some(b) =>
      && lo <= b.start && IsBlock(b, num) && b.end <= hi
      && !Blocked(leases, b.start, num)
      && forall s :: lo <= s < b.start ==> Blocked(leases, s, num)
    case None => !HasFreeBlock(leases, lo, hi, num)
  }

  function Wrap(last: int): uint32
    requires 0 <= last <= TWO32
  {
    if last == TWO32 then 0 else last
  }

  /** The state of the scan before lease `k`, with the cursor at `last` (an unbounded integer). */
  ghost predicate ScanState(leases: seq<SimpleRange>, k: nat, last: int, lo: int, hi: int, num: nat) {
    && k <= |leases| && lo <= last <= hi + 1
    && (forall i :: 0 <= i < k ==> leases[i].end < last || (last == hi + 1 && leases[i].start <= leases[i].end))
    && (forall i :: k <= i < |leases| ==> last <= leases[i].start)
    && (forall s :: lo <= s < last ==> Blocked(leases, s, num))
    && (last == hi + 1 ==> Leased(leases, hi))
  }

  /** The scan ends at the lowest free block, or beyond `hi` when the leases leave no room and cover `hi`. */
  lemma {:induction false} CursorExactly(leases: seq<SimpleRange>, k: nat, last: int, lo: int, hi: uint32, num: nat)
    requires 0 < lo <= hi && 1 <= num <= 0x8000_0000
    requires Sorted(leases) && ScanState(leases, k, last, lo, hi, num)
    ensures var c := Cursor(leases[k..], Wrap(last), hi, num);
            || (&& lo <= c <= hi && !Leased(leases, hi) && c + num - 1 > hi
                && forall s :: lo <= s <= c ==> s < c ==> Blocked(leases, s, num))
            || (&& lo <= c && c + num - 1 <= hi && !Blocked(leases, c, num)
                && forall s :: lo <= s < c ==> Blocked(leases, s, num))
            || (&& c == Add32(hi, 1) && Leased(leases, hi)
                && forall s :: lo <= s <= hi ==> Blocked(leases, s, num))
    decreases |leases| - k
  {
    if k < |leases| {
      var l := leases[k];
      assert leases[k..][0] == l && leases[k..][1..] == leases[k + 1..];
      if l.start > hi {
        SkipRest(leases, k, Wrap(last), hi, num);
        assert Cursor(leases[k..], Wrap(last), hi, num) == Wrap(last);
        assert forall i :: k <= i < |leases| ==> hi < leases[i].start;
      } else if l.start - last < num {
        var next := Min(l.end, hi) + 1;
        forall s | lo <= s < next ensures Blocked(leases, s, num) {
          if last <= s {
            assert l.start <= s + num - 1 && s <= l.end;
          }
        }
        if next == hi + 1 { assert l.Has(hi); }
        CursorExactly(leases, k + 1, next, lo, hi, num);
        assert Add32(Min(l.end, hi), 1) == Wrap(next);
      } else {
        assert !Blocked(leases, last, num);
      }
    }
  }

  /** Once a lease starts beyond `hi`, so do all later ones, and the cursor stays. */
  lemma {:induction false} SkipRest(leases: seq<SimpleRange>, k: nat, last: uint32, hi: uint32, num: nat)
    requires k <= |leases| && forall i :: k <= i < |leases| ==> hi < leases[i].start
    ensures Cursor(leases[k..], last, hi, num) == last
    decreases |leases| - k
  {
    if k < |leases| {
      assert leases[k..][0] == leases[k] && leases[k..][1..] == leases[k + 1..];
      SkipRest(leases, k + 1, last, hi, num);
    }
  }

  /** For sorted disjoint leases at or above the effective start, the scan is first fit exactly when the
      range is not empty and, if its last address is leased, still has room for a block. Otherwise the
      cursor stands beyond the range end, the subtraction wraps, and a block outside the range comes back. */
  lemma FirstFitExactly(leases: seq<SimpleRange>, r: Range, n: nat)
    requires n < 32 && r.Valid() && Sorted(leases) && NoneStartsBelow(leases, EffectiveStart(r))
    ensures var lo, hi, num := EffectiveStart(r), r.end, Pow2(n);
            IsFirstFit(leases, lo, hi, num, FreeRange(leases, r, n)) <==>
              lo <= hi && (Leased(leases, hi) ==> HasFreeBlock(leases, lo, hi, num))
  {
    var lo, hi, num := EffectiveStart(r), r.end, Pow2(n);
    EffectiveStartBounds(r);
    Pow2Below32(n);
    if lo <= hi {
      CursorExactly(leases, 0, lo, lo, hi, num);
      assert leases[0..] == leases;
      var c := Cursor(leases, lo, hi, num);
      if c == Add32(hi, 1) {
        assert Sub32(hi, c) == TWO32 - 1;
        assert !HasFreeBlock(leases, lo, hi, num);
      } else {
        SegmentShape(c, num);
        assert Sub32(hi, c) == hi - c;
      }
    } else {
      SkipRest(leases, 0, lo, hi, num);
      assert leases[0..] == leases;
      assert Sub32(hi, lo) >= num - 1;
      SegmentShape(lo, num);
    }
  }

  /** A block outside the range is what an exhausted range with a leased last address yields. */
  lemma ExhaustedRangeWraps(leases: seq<SimpleRange>, r: Range, n: nat)
    requires n < 32 && r.Valid() && Sorted(leases) && NoneStartsBelow(leases, EffectiveStart(r))
    requires EffectiveStart(r) <= r.end
    requires Leased(leases, r.end) && !HasFreeBlock(leases, EffectiveStart(r), r.end, Pow2(n))
    ensures FreeRange(leases, r, n) == Some(Segment(Add32(r.end, 1), n))
  {
    var lo, hi, num := EffectiveStart(r), r.end, Pow2(n);
    EffectiveStartBounds(r);
    Pow2Below32(n);
    CursorExactly(leases, 0, lo, lo, hi, num);
    assert leases[0..] == leases;
    assert Sub32(hi, Add32(hi, 1)) == TWO32 - 1;
  }

  /** A first lease that starts below the effective start ends the scan at once. The answer is then first
      fit exactly when no lease meets the first block, or when no block fits the range at all. */
  lemma LeaseBelowStartExactly(leases: seq<SimpleRange>, r: Range, n: nat)
    requires n < 32 && r.Valid() && leases != [] && EffectiveStart(r) <= r.end
    requires 0 < leases[0].start < EffectiveStart(r) <= leases[0].start + TWO32 - Pow2(n)
    ensures var lo, hi, num := EffectiveStart(r), r.end, Pow2(n);
            IsFirstFit(leases, lo, hi, num, FreeRange(leases, r, n)) <==> hi - lo < num - 1 || !Blocked(leases, lo, num)
  {
    var lo, hi, num := EffectiveStart(r), r.end, Pow2(n);
    Pow2Below32(n);
    assert Cursor(leases, lo, hi, num) == lo;
    assert Sub32(hi, lo) == hi - lo;
    SegmentShape(lo, num);
    if num - 1 <= hi - lo {
      assert FreeRange(leases, r, n).value.start == lo;
    } else {
      assert FreeRange(leases, r, n).None?;
    }
  }
}

/** 32-bit unsigned words, powers of two and the logarithm that the lease layer computes with. */
module Words {

  const TWO32: int := 0x1_0000_0000

  type uint32 = x: int | 0 <= x < TWO32

  datatype Option<+T> = None | Some(value: T) {
    function GetOr(default: T): T {
      if None? then default else value
    }
  }

  /** Go's `x + y` on uint32. */
  function Add32(x: uint32, y: uint32): uint32 {
    if x + y < TWO32 then x + y else x + y - TWO32
  }

  /** Go's `x - y` on uint32: it wraps to a large value when `x < y`. */
  function Sub32(x: uint32, y: uint32): uint32 {
    if y <= x then x - y else x - y + TWO32
  }

  function Min(x: int, y: int): int {
    if x < y then x else y
  }

  function Max(x: int, y: int): int {
    if x < y then y else x
  }

  function Pow2(n: nat): (p: nat)
    ensures 1 <= p
  {
    if n == 0 then 1 else 2 * Pow2(n - 1)
  }

  lemma {:induction false} Pow2Monotone(m: nat, n: nat)
    requires m <= n
    ensures Pow2(m) <= Pow2(n)
    decreases n
  {
    if m < n {
      Pow2Monotone(m, n - 1);
    }
  }

  lemma Pow2Values()
    ensures Pow2(31) == 0x8000_0000 && Pow2(32) == TWO32
  {
    assert Pow2(8) == 0x100;
    assert Pow2(16) == 0x1_0000;
    assert Pow2(24) == 0x100_0000;
    assert Pow2(31) == 0x8000_0000;
  }

  lemma Pow2Below32(n: nat)
    requires n < 32
    ensures 2 * Pow2(n) <= TWO32
  {
    Pow2Monotone(n, 31);
    Pow2Values();
  }

  /** The integer part of the base-2 logarithm. Go leaves `uint32(-Inf)` to the implementation;
      the value 0 that amd64 and arm64 produce is taken for the logarithm of 0. */
  function Log2(x: nat): nat {
    if x < 2 then 0 else 1 + Log2(x / 2)
  }

  lemma {:induction false} Log2Floor(x: nat)
    requires 1 <= x
    ensures Pow2(Log2(x)) <= x < Pow2(Log2(x) + 1)
  {
    if 2 <= x {
      Log2Floor(x / 2);
    }
  }

  lemma {:induction false} Log2Unique(x: nat, n: nat)
    requires Pow2(n) <= x < Pow2(n + 1)
    ensures Log2(x) == n
    decreases n
  {
    if n > 0 {
      Log2Unique(x / 2, n - 1);
    }
  }

  lemma Log2OfPow2(n: nat)
    ensures Log2(Pow2(n)) == n
  {
    Log2Unique(Pow2(n), n);
  }

  lemma Log2Below32(x: nat)
    requires x < TWO32
    ensures Log2(x) < 32
  {
    Pow2Values();
    if 1 <= x {
      Log2Floor(x);
      if 32 <= Log2(x) {
        Pow2Monotone(32, Log2(x));
      }
    }
  }
}

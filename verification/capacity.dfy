/** The growth strategy shared by a line's byte storage and the editor's row
    storage: start from a fixed initial capacity, then double until the
    requested room is free. Integers are unbounded here; `size_t` overflow of
    the doubling is not modelled. */
module Capacity {

  function Pow2(k: nat): (p: nat)
    ensures p >= 1
  {
    if k == 0 then 1 else 2 * Pow2(k - 1)
  }

  /** One step of the doubling loop. */
  function Next(cap: nat, init: nat): nat {
    if cap == 0 then init else 2 * cap
  }

  /** The capacity the doubling loop settles on when `n` more elements must
      fit behind the `len` already used. */
  function Grown(cap: nat, len: nat, n: nat, init: nat): (c: nat)
    requires len <= cap && init > 0
    ensures c - len >= n
    ensures c >= cap
    ensures cap - len >= n ==> c == cap
    decreases len + n - cap
  {
    if cap - len >= n then cap else Grown(Next(cap, init), len, n, init)
  }

  /** The doubling loop itself, as the C code runs it. */
  method GrowCapacity(cap: nat, len: nat, n: nat, init: nat) returns (c: nat)
    requires len <= cap && init > 0
    ensures c == Grown(cap, len, n, init)
  {
    c := cap;
    while c - len < n
      invariant len <= c
      invariant Grown(c, len, n, init) == Grown(cap, len, n, init)
      decreases len + n - c
    {
      if c == 0 {
        c := init;
      } else {
        c := c * 2;
      }
    }
  }

  /** `b` doubled `k` times, in the order the loop doubles it. */
  function Doubled(b: nat, k: nat): nat
    decreases k
  {
    if k == 0 then b else Doubled(2 * b, k - 1)
  }

  lemma {:induction false} DoubledIsScaled(b: nat, k: nat)
    ensures Doubled(b, k) == b * Pow2(k)
    decreases k
  {
    if k > 0 {
      DoubledIsScaled(2 * b, k - 1);
      assert (2 * b) * Pow2(k - 1) == b * (2 * Pow2(k - 1));
    }
  }

  /** Starting from a positive capacity `b`, the loop stops at the first
      doubling of `b` that leaves room for `n` more elements. */
  lemma {:induction false} GrownFromPositive(b: nat, len: nat, n: nat, init: nat)
    requires 0 < b && len <= b && init > 0
    ensures exists k: nat :: Grown(b, len, n, init) == Doubled(b, k)
    ensures forall k: nat :: Doubled(b, k) - len >= n ==> Grown(b, len, n, init) <= Doubled(b, k)
    decreases len + n - b
  {
    if b - len >= n {
      assert Grown(b, len, n, init) == Doubled(b, 0);
      forall k: nat ensures b <= Doubled(b, k) {
        DoubledGrows(b, k);
      }
    } else {
      GrownFromPositive(2 * b, len, n, init);
      var k: nat :| Grown(2 * b, len, n, init) == Doubled(2 * b, k);
      assert Grown(b, len, n, init) == Doubled(b, k + 1);
      forall j: nat | Doubled(b, j) - len >= n
        ensures Grown(b, len, n, init) <= Doubled(b, j)
      {
        assert j != 0;
        assert Doubled(b, j) == Doubled(2 * b, j - 1);
      }
    }
  }

  lemma {:induction false} DoubledGrows(b: nat, k: nat)
    ensures b <= Doubled(b, k)
    decreases k
  {
    if k > 0 {
      DoubledGrows(2 * b, k - 1);
    }
  }

  /** When the room is missing, the new capacity is the initial capacity (for
      an unallocated buffer) or twice the old one, times the least power of
      two that makes the room. */
  lemma GrownIsLeastDoubling(cap: nat, len: nat, n: nat, init: nat)
    requires len <= cap && init > 0 && cap - len < n
    ensures exists k: nat :: Grown(cap, len, n, init) == Next(cap, init) * Pow2(k)
    ensures forall k: nat :: Next(cap, init) * Pow2(k) - len >= n ==>
              Grown(cap, len, n, init) <= Next(cap, init) * Pow2(k)
  {
    var b := Next(cap, init);
    GrownFromPositive(b, len, n, init);
    var k: nat :| Grown(cap, len, n, init) == Doubled(b, k);
    DoubledIsScaled(b, k);
    forall j: nat | b * Pow2(j) - len >= n
      ensures Grown(cap, len, n, init) <= b * Pow2(j)
    {
      DoubledIsScaled(b, j);
    }
  }
}

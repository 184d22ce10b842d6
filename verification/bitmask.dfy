/**
 * Visited-sets as Python integers used as bit masks: bit i of `mask` is set
 * when city i has been visited. `mask & (1 << i)`, `mask | (1 << i)` and
 * `mask ^ (1 << i)` are defined arithmetically on unbounded naturals.
 */
module Bitmask {

  /** `1 << k` */
  function Pow2(k: nat): (r: nat)
    ensures r >= 1
  {
    if k == 0 then 1 else 2 * Pow2(k - 1)
  }

  /** `mask & (1 << i) != 0` */
  predicate Has(mask: nat, i: nat) {
    if i == 0 then mask % 2 == 1 else Has(mask / 2, i - 1)
  }

  /** `mask | (1 << i)` */
  function With(mask: nat, i: nat): nat {
    if Has(mask, i) then mask else mask + Pow2(i)
  }

  /** `mask ^ (1 << i)` */
  function Toggle(mask: nat, i: nat): nat {
    if Has(mask, i) then HasAtLeast(mask, i); mask - Pow2(i) else mask + Pow2(i)
  }

  /** The cities below n whose bit is set. */
  function Members(mask: nat, n: nat): set<int> {
    set i: int | 0 <= i < n && Has(mask, i)
  }

  /** `(1 << n) - 1`, every city of an n-city problem. */
  function Full(n: nat): nat {
    Pow2(n) - 1
  }

  lemma {:induction false} HasAtLeast(mask: nat, i: nat)
    requires Has(mask, i)
    ensures mask >= Pow2(i)
  {
    if i > 0 {
      HasAtLeast(mask / 2, i - 1);
    }
  }

  /** A mask below 2^n has no bit at or above n. */
  lemma {:induction false} NoHighBits(mask: nat, n: nat, i: nat)
    requires mask < Pow2(n) && i >= n
    ensures !Has(mask, i)
  {
    if Has(mask, i) {
      HasAtLeast(mask, i);
      PowMonotone(n, i);
    }
  }

  lemma {:induction false} PowMonotone(a: nat, b: nat)
    requires a <= b
    ensures Pow2(a) <= Pow2(b)
    decreases b
  {
    if a < b {
      PowMonotone(a, b - 1);
    }
  }

  /** Adding an absent bit sets exactly that bit. */
  lemma {:induction false} AddBit(mask: nat, j: nat, i: nat)
    requires !Has(mask, j)
    ensures Has(mask + Pow2(j), i) <==> i == j || Has(mask, i)
  {
    if j == 0 {
      if i > 0 {
        assert (mask + 1) / 2 == mask / 2;
      }
    } else {
      assert (mask + Pow2(j)) % 2 == mask % 2;
      assert (mask + Pow2(j)) / 2 == mask / 2 + Pow2(j - 1);
      if i > 0 {
        AddBit(mask / 2, j - 1, i - 1);
      }
    }
  }

  /** Subtracting a present bit clears exactly that bit. */
  lemma RemoveBit(mask: nat, j: nat, i: nat)
    requires Has(mask, j)
    ensures mask >= Pow2(j)
    ensures Has(mask - Pow2(j), i) <==> i != j && Has(mask, i)
  {
    HasAtLeast(mask, j);
    var m := mask - Pow2(j);
    if Has(m, j) {
      AddBit2(m, j);
      assert false;
    }
    AddBit(m, j, i);
  }

  /** Adding a bit that is already present flips it off. */
  lemma {:induction false} AddBit2(mask: nat, j: nat)
    requires Has(mask, j)
    ensures !Has(mask + Pow2(j), j)
  {
    if j == 0 {
    } else {
      assert (mask + Pow2(j)) / 2 == mask / 2 + Pow2(j - 1);
      AddBit2(mask / 2, j - 1);
    }
  }

  /** Setting an absent bit below n keeps a mask below 2^n. */
  lemma {:induction false} AddBitBound(mask: nat, j: nat, n: nat)
    requires mask < Pow2(n) && j < n && !Has(mask, j)
    ensures mask + Pow2(j) < Pow2(n)
  {
    if j == 0 {
      assert Pow2(n) == 2 * Pow2(n - 1);
    } else {
      assert mask / 2 < Pow2(n - 1);
      AddBitBound(mask / 2, j - 1, n - 1);
    }
  }

  /** The full mask holds every city below n. */
  lemma {:induction false} FullHasAll(n: nat, i: nat)
    requires i < n
    ensures Has(Full(n), i)
  {
    if i > 0 {
      assert Full(n) / 2 == Full(n - 1);
      FullHasAll(n - 1, i - 1);
    }
  }

  /** Only city 0 is in the start mask `1`. */
  lemma StartMask(i: nat)
    ensures Has(1, i) <==> i == 0
  {
    if i > 0 {
      assert !Has(0, i - 1) by {
        NoHighBits(0, 0, i - 1);
      }
    }
  }

  /** Two masks below 2^n with the same bits below n are equal. */
  lemma {:induction false} BitsDetermine(a: nat, b: nat, n: nat)
    requires a < Pow2(n) && b < Pow2(n)
    requires forall i: nat :: i < n ==> (Has(a, i) <==> Has(b, i))
    ensures a == b
  {
    if n > 0 {
      assert Has(a, 0) <==> Has(b, 0);
      forall i: nat | i < n - 1
        ensures Has(a / 2, i) <==> Has(b / 2, i)
      {
        assert Has(a, i + 1) <==> Has(b, i + 1);
      }
      BitsDetermine(a / 2, b / 2, n - 1);
    }
  }

  /** `|` and `^` with one bit, stated as operations on the visited set. */
  lemma WithToggleMembers(mask: nat, j: nat, n: nat)
    requires j < n
    ensures Members(With(mask, j), n) == Members(mask, n) + {j}
    ensures Has(mask, j) ==> Members(Toggle(mask, j), n) == Members(mask, n) - {j}
    ensures !Has(mask, j) ==> Toggle(mask, j) == With(mask, j)
  {
    if Has(mask, j) {
      HasAtLeast(mask, j);
      forall i: nat
        ensures Has(mask - Pow2(j), i) <==> i != j && Has(mask, i)
      {
        RemoveBit(mask, j, i);
      }
    } else {
      forall i: nat
        ensures Has(mask + Pow2(j), i) <==> i == j || Has(mask, i)
      {
        AddBit(mask, j, i);
      }
    }
  }
}

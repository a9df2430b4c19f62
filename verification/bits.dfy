/**
 The bit-level view of the non-negative integers the pattern alphabet stores.
 A mask is a `nat`; `1 << k` is `Pow2(k)`, `(n >> k) & 1 == 1` is `HasBit(n, k)`
 and `a | b` is `BitOr(a, b)`. Masks are compared bit by bit through
 `BitsDetermineValue`.
 */
module Bits {

  /** 2 to the power k: the value of `1 << k` for a shift that does not overflow. */
  function Pow2(k: nat): (r: nat)
    ensures r >= 1
  {
    if k == 0 then 1 else 2 * Pow2(k - 1)
  }

  /** Raising the exponent never lowers the power. */
  lemma {:induction false} Pow2Monotone(a: nat, b: nat)
    requires a <= b
    ensures Pow2(a) <= Pow2(b)
  {
    if a < b {
      Pow2Monotone(a, b - 1);
    }
  }

  /** True iff bit k of n is set, i.e. `(n >> k) & 1 == 1`. */
  predicate HasBit(n: nat, k: nat)
    decreases k
  {
    if k == 0 then n % 2 == 1 else HasBit(n / 2, k - 1)
  }

  /** Bitwise OR of two naturals, built from the least significant bit up. */
  function BitOr(a: nat, b: nat): nat
    decreases a + b
  {
    if a == 0 then b
    else if b == 0 then a
    else 2 * BitOr(a / 2, b / 2) + (if a % 2 == 1 || b % 2 == 1 then 1 else 0)
  }

  /** Zero has no bit set. */
  lemma {:induction false} NoBitOfZero(k: nat)
    ensures !HasBit(0, k)
  {
    if k > 0 {
      NoBitOfZero(k - 1);
    }
  }

  /** `BitOr` is the bitwise OR: a bit of the result is set iff it is set in either operand. */
  lemma {:induction false} BitOrBits(a: nat, b: nat, k: nat)
    ensures HasBit(BitOr(a, b), k) <==> HasBit(a, k) || HasBit(b, k)
    decreases a + b
  {
    if a == 0 {
      NoBitOfZero(k);
    } else if b == 0 {
      NoBitOfZero(k);
    } else {
      var low := if a % 2 == 1 || b % 2 == 1 then 1 else 0;
      var r := 2 * BitOr(a / 2, b / 2) + low;
      assert BitOr(a, b) == r;
      assert r / 2 == BitOr(a / 2, b / 2);
      assert r % 2 == low;
      if k > 0 {
        BitOrBits(a / 2, b / 2, k - 1);
      }
    }
  }

  /** `1 << j` has exactly bit j set. */
  lemma {:induction false} Pow2Bits(j: nat, k: nat)
    ensures HasBit(Pow2(j), k) <==> j == k
  {
    if j == 0 {
      if k > 0 {
        NoBitOfZero(k - 1);
      }
    } else {
      assert Pow2(j) % 2 == 0 && Pow2(j) / 2 == Pow2(j - 1);
      if k > 0 {
        Pow2Bits(j - 1, k - 1);
      }
    }
  }

  /** Two naturals with the same bits are equal. */
  lemma {:induction false} BitsDetermineValue(a: nat, b: nat)
    requires forall k: nat :: HasBit(a, k) <==> HasBit(b, k)
    ensures a == b
    decreases a + b
  {
    if a != 0 || b != 0 {
      assert HasBit(a, 0) <==> HasBit(b, 0);
      forall k: nat
        ensures HasBit(a / 2, k) <==> HasBit(b / 2, k)
      {
        assert HasBit(a, k + 1) <==> HasBit(b, k + 1);
      }
      BitsDetermineValue(a / 2, b / 2);
    }
  }

  /** A natural with no bit at position n or above is below 2^n. */
  lemma {:induction false} BoundByBits(a: nat, n: nat)
    requires forall k: nat :: n <= k ==> !HasBit(a, k)
    ensures a < Pow2(n)
  {
    if n == 0 {
      forall k: nat
        ensures HasBit(a, k) <==> HasBit(0, k)
      {
        NoBitOfZero(k);
      }
      BitsDetermineValue(a, 0);
    } else {
      forall k: nat | n - 1 <= k
        ensures !HasBit(a / 2, k)
      {
        assert !HasBit(a, k + 1);
      }
      BoundByBits(a / 2, n - 1);
    }
  }

  /** 2^n - 1 has exactly the bits 0 .. n-1 set. */
  lemma {:induction false} LowOnesBits(n: nat, k: nat)
    ensures HasBit(Pow2(n) - 1, k) <==> k < n
  {
    if n == 0 {
      NoBitOfZero(k);
    } else {
      var m := Pow2(n) - 1;
      assert m == 2 * (Pow2(n - 1) - 1) + 1;
      assert m % 2 == 1 && m / 2 == Pow2(n - 1) - 1;
      if k > 0 {
        LowOnesBits(n - 1, k - 1);
      }
    }
  }

  /** OR of two masks with no common bit is their sum. */
  lemma {:induction false} DisjointOrIsSum(a: nat, b: nat)
    requires forall k: nat :: !(HasBit(a, k) && HasBit(b, k))
    ensures BitOr(a, b) == a + b
    decreases a + b
  {
    if a != 0 && b != 0 {
      assert !(HasBit(a, 0) && HasBit(b, 0));
      forall k: nat
        ensures !(HasBit(a / 2, k) && HasBit(b / 2, k))
      {
        assert !(HasBit(a, k + 1) && HasBit(b, k + 1));
      }
      DisjointOrIsSum(a / 2, b / 2);
      assert BitOr(a, b) == 2 * (a / 2 + b / 2) + (a % 2 + b % 2);
    }
  }
}

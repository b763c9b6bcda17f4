/** Python's `&` on the flag word of an alignment record, and bit tests on it.
    Python integers are unbounded and negative ones behave as infinite two's
    complement, which is what TestBit and BitAnd follow for their second argument. */
module Bits {

  /** Bit `k` of `x` (two's complement for negative `x`). */
  predicate TestBit(x: int, k: nat)
    decreases k
  {
    if k == 0 then x % 2 == 1 else TestBit(x / 2, k - 1)
  }

  function Pow2(k: nat): (p: nat)
    ensures p >= 1
  {
    if k == 0 then 1 else 2 * Pow2(k - 1)
  }

  /** `a & b` for a non-negative `a` and any `b`. */
  function BitAnd(a: nat, b: int): (r: nat)
    ensures r <= a
  {
    if a == 0 then 0
    else 2 * BitAnd(a / 2, b / 2) + (if a % 2 == 1 && b % 2 == 1 then 1 else 0)
  }

  lemma {:induction false} ZeroHasNoBits(k: nat)
    ensures !TestBit(0, k)
  {
    if k > 0 {
      ZeroHasNoBits(k - 1);
    }
  }

  /** Bit `k` of `a & b` is set exactly when it is set in both. */
  lemma {:induction false} TestBitAnd(a: nat, b: int, k: nat)
    ensures TestBit(BitAnd(a, b), k) == (TestBit(a, k) && TestBit(b, k))
  {
    if a == 0 {
      ZeroHasNoBits(k);
    } else if k > 0 {
      var r := BitAnd(a, b);
      assert r / 2 == BitAnd(a / 2, b / 2);
      TestBitAnd(a / 2, b / 2, k - 1);
    }
  }

  /** A non-zero natural number has a bit set. */
  lemma {:induction false} NonZeroHasBit(x: nat)
    requires x != 0
    ensures exists k: nat :: TestBit(x, k)
  {
    if x % 2 == 1 {
      assert TestBit(x, 0);
    } else {
      NonZeroHasBit(x / 2);
      var k: nat :| TestBit(x / 2, k);
      assert TestBit(x, k + 1);
    }
  }

  /** `a & b == 0` exactly when no bit is set in both. */
  lemma AndZeroIffDisjoint(a: nat, b: int)
    ensures BitAnd(a, b) == 0 ==> forall k: nat :: !(TestBit(a, k) && TestBit(b, k))
    ensures BitAnd(a, b) != 0 ==> exists k: nat :: TestBit(a, k) && TestBit(b, k)
  {
    if BitAnd(a, b) == 0 {
      forall k: nat ensures !(TestBit(a, k) && TestBit(b, k)) {
        TestBitAnd(a, b, k);
        ZeroHasNoBits(k);
      }
    } else {
      NonZeroHasBit(BitAnd(a, b));
      var k: nat :| TestBit(BitAnd(a, b), k);
      TestBitAnd(a, b, k);
    }
  }

  /** The only bit of `2^j` is bit `j`. */
  lemma {:induction false} TestBitPow2(j: nat, k: nat)
    ensures TestBit(Pow2(j), k) <==> j == k
  {
    if j == 0 {
      if k > 0 {
        ZeroHasNoBits(k - 1);
      }
    } else if k > 0 {
      assert Pow2(j) / 2 == Pow2(j - 1);
      TestBitPow2(j - 1, k - 1);
    }
  }

  /** Masking with a single bit tests that bit. */
  lemma AndPow2(a: nat, j: nat)
    ensures BitAnd(a, Pow2(j)) == 0 <==> !TestBit(a, j)
  {
    AndZeroIffDisjoint(a, Pow2(j));
    TestBitPow2(j, j);
    if BitAnd(a, Pow2(j)) != 0 {
      var k: nat :| TestBit(a, k) && TestBit(Pow2(j), k);
      TestBitPow2(j, k);
    }
  }
}

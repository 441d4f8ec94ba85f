/** Bitwise arithmetic on unbounded naturals, as Python's `^`, `&`, `<<`
    and `>>` behave on the non-negative integers that represent elements of
    GF(2^n): an integer is read as the bit mask of a polynomial over GF(2). */
module Bits {

  /** 2^k */
  function Pow2(k: nat): (r: nat)
    ensures r >= 1
  {
    if k == 0 then 1 else 2 * Pow2(k - 1)
  }

  /** Bitwise exclusive or (Python `x ^ y` on non-negative integers):
      the lowest bit is the sum of the lowest bits modulo 2, the rest is
      the exclusive or of the shifted-out halves. */
  function Xor(x: nat, y: nat): (r: nat)
    decreases x + y
  {
    if x == 0 && y == 0 then 0 else 2 * Xor(x / 2, y / 2) + (x % 2 + y % 2) % 2
  }

  /** Python `x & 2^k != 0`: bit k of x is set. */
  predicate TestBit(x: nat, k: nat)
  {
    if k == 0 then x % 2 == 1 else TestBit(x / 2, k - 1)
  }

  /** The defining equation of Xor holds also at (0, 0). */
  lemma XorStep(x: nat, y: nat)
    ensures Xor(x, y) == 2 * Xor(x / 2, y / 2) + (x % 2 + y % 2) % 2
    ensures Xor(x, y) / 2 == Xor(x / 2, y / 2)
    ensures Xor(x, y) % 2 == (x % 2 + y % 2) % 2
  {
  }

  /** 0 is the neutral element of exclusive or. */
  lemma {:induction false} XorZero(x: nat)
    ensures Xor(x, 0) == x && Xor(0, x) == x
    decreases x
  {
    if x != 0 {
      XorZero(x / 2);
    }
  }

  /** Exclusive or is commutative. */
  lemma {:induction false} XorComm(x: nat, y: nat)
    ensures Xor(x, y) == Xor(y, x)
    decreases x + y
  {
    if x != 0 || y != 0 {
      XorComm(x / 2, y / 2);
    }
  }

  /** Every value is its own inverse under exclusive or. */
  lemma {:induction false} XorSelf(x: nat)
    ensures Xor(x, x) == 0
    decreases x
  {
    if x != 0 {
      XorSelf(x / 2);
    }
  }

  /** x ^ y is 0 exactly when x and y are equal. */
  lemma {:induction false} XorZeroIff(x: nat, y: nat)
    ensures Xor(x, y) == 0 <==> x == y
    decreases x + y
  {
    if x == y {
      XorSelf(x);
    } else {
      XorStep(x, y);
      if x % 2 == y % 2 {
        XorZeroIff(x / 2, y / 2);
      }
    }
  }

  /** Bit k of x ^ y is set exactly when it is set in one of x and y
      but not in both. */
  lemma {:induction false} XorBit(x: nat, y: nat, k: nat)
    ensures TestBit(Xor(x, y), k) <==> TestBit(x, k) != TestBit(y, k)
    decreases k
  {
    XorStep(x, y);
    if k > 0 {
      XorBit(x / 2, y / 2, k - 1);
    }
  }

  /** Two naturals with the same bits are equal. */
  lemma {:induction false} SameBits(a: nat, b: nat)
    requires forall k: nat :: TestBit(a, k) == TestBit(b, k)
    ensures a == b
    decreases a + b
  {
    if a != 0 || b != 0 {
      assert TestBit(a, 0) == TestBit(b, 0);
      forall k: nat
        ensures TestBit(a / 2, k) == TestBit(b / 2, k)
      {
        assert TestBit(a, k + 1) == TestBit(b, k + 1);
      }
      SameBits(a / 2, b / 2);
    }
  }

  /** Exclusive or is associative. */
  lemma XorAssoc(x: nat, y: nat, z: nat)
    ensures Xor(Xor(x, y), z) == Xor(x, Xor(y, z))
  {
    forall k: nat
      ensures TestBit(Xor(Xor(x, y), z), k) == TestBit(Xor(x, Xor(y, z)), k)
    {
      XorBit(Xor(x, y), z, k);
      XorBit(x, y, k);
      XorBit(y, z, k);
      XorBit(x, Xor(y, z), k);
    }
    SameBits(Xor(Xor(x, y), z), Xor(x, Xor(y, z)));
  }

  /** Exclusive or of two k-bit values is a k-bit value. */
  lemma {:induction false} XorBound(x: nat, y: nat, k: nat)
    requires x < Pow2(k) && y < Pow2(k)
    ensures Xor(x, y) < Pow2(k)
    decreases k
  {
    if k == 0 {
      assert x == 0 && y == 0;
    } else {
      XorBound(x / 2, y / 2, k - 1);
      XorStep(x, y);
    }
  }

  /** Two values whose highest set bit is bit k cancel that bit: their
      exclusive or fits in k bits. */
  lemma {:induction false} XorHighBit(x: nat, y: nat, k: nat)
    requires Pow2(k) <= x < 2 * Pow2(k) && Pow2(k) <= y < 2 * Pow2(k)
    ensures Xor(x, y) < Pow2(k)
    decreases k
  {
    if k == 0 {
      assert x == 1 && y == 1;
      XorSelf(1);
    } else {
      XorHighBit(x / 2, y / 2, k - 1);
      XorStep(x, y);
    }
  }

  /** For a value below 2^(k+1), bit k is set exactly when the value is at
      least 2^k (the source's `x & size` test is `x > size - 1` there). */
  lemma {:induction false} TestTopBit(x: nat, k: nat)
    requires x < 2 * Pow2(k)
    ensures TestBit(x, k) <==> x >= Pow2(k)
    decreases k
  {
    if k > 0 {
      TestTopBit(x / 2, k - 1);
    }
  }
}

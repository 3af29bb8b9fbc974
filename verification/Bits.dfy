// Bitwise operators of C on unsigned values, written out on natural numbers so
// that the masks and shifts of the original can be kept as they are.
module Bits {

  function Pow2(k: nat): (p: nat)
    ensures p >= 1
  {
    if k == 0 then 1 else 2 * Pow2(k - 1)
  }

  function Or(a: nat, b: nat): nat
    decreases a + b
  {
    if a == 0 && b == 0 then 0
    else 2 * Or(a / 2, b / 2) + (if a % 2 == 1 || b % 2 == 1 then 1 else 0)
  }

  function And(a: nat, b: nat): nat
    decreases a + b
  {
    if a == 0 || b == 0 then 0
    else 2 * And(a / 2, b / 2) + (if a % 2 == 1 && b % 2 == 1 then 1 else 0)
  }

  function Xor(a: nat, b: nat): nat
    decreases a + b
  {
    if a == 0 && b == 0 then 0
    else 2 * Xor(a / 2, b / 2) + (a + b) % 2
  }

  function Shl(a: nat, k: nat): nat {
    if k == 0 then a else 2 * Shl(a, k - 1)
  }

  function Shr(a: nat, k: nat): nat {
    if k == 0 then a else Shr(a / 2, k - 1)
  }

  /** Bit number i of a. */
  predicate Bit(a: nat, i: nat) {
    if i == 0 then a % 2 == 1 else Bit(a / 2, i - 1)
  }

  lemma {:induction false} OrBit(a: nat, b: nat, i: nat)
    ensures Bit(Or(a, b), i) == (Bit(a, i) || Bit(b, i))
    decreases i
  {
    OrStep(a, b);
    hide Or;
    if i > 0 {
      OrBit(a / 2, b / 2, i - 1);
    }
  }

  lemma {:induction false} XorBit(a: nat, b: nat, i: nat)
    ensures Bit(Xor(a, b), i) <==> Bit(a, i) != Bit(b, i)
    decreases i
  {
    if a != 0 || b != 0 {
      XorStep(a, b);
      hide Xor;
      if i > 0 {
        XorBit(a / 2, b / 2, i - 1);
      }
    } else {
      ZeroBit(i);
    }
  }

  lemma XorStep(a: nat, b: nat)
    requires a != 0 || b != 0
    ensures Xor(a, b) / 2 == Xor(a / 2, b / 2) && Xor(a, b) % 2 == (a + b) % 2
  {
  }

  lemma {:induction false} ZeroBit(i: nat)
    ensures !Bit(0, i)
  {
    if i > 0 {
      ZeroBit(i - 1);
    }
  }

  lemma {:induction false} AndBit(a: nat, b: nat, i: nat)
    ensures Bit(And(a, b), i) <==> Bit(a, i) && Bit(b, i)
    decreases i
  {
    AndStep(a, b);
    hide And;
    if i > 0 {
      AndBit(a / 2, b / 2, i - 1);
    }
  }

  lemma {:induction false} ShrBit(a: nat, k: nat, i: nat)
    ensures Bit(Shr(a, k), i) == Bit(a, k + i)
    decreases k
  {
    if k > 0 {
      ShrBit(a / 2, k - 1, i);
    }
  }

  /** A number below 2^n with all of its n low bits set is 2^n - 1. */
  lemma {:induction false} AllOnes(a: nat, n: nat)
    requires a < Pow2(n)
    requires forall i :: 0 <= i < n ==> Bit(a, i)
    ensures a == Pow2(n) - 1
  {
    if n > 0 {
      assert Bit(a, 0);
      forall i | 0 <= i < n - 1
        ensures Bit(a / 2, i)
      {
        assert Bit(a, i + 1);
      }
      AllOnes(a / 2, n - 1);
    }
  }

  lemma {:induction false} OrBelow(a: nat, b: nat, n: nat)
    requires a < Pow2(n) && b < Pow2(n)
    ensures Or(a, b) < Pow2(n)
  {
    if n > 0 {
      OrBelow(a / 2, b / 2, n - 1);
    }
  }

  lemma {:induction false} OrZero(a: nat)
    ensures Or(a, 0) == a && Or(0, a) == a
  {
    if a > 0 {
      OrZero(a / 2);
    }
  }

  /** Halving a number that is made of a high and a low part. */
  lemma HalfStep(h: nat, l: nat, k: nat)
    requires k > 0 && l < Pow2(k)
    ensures (Shl(h, k) + l) / 2 == Shl(h, k - 1) + l / 2 && (Shl(h, k) + l) % 2 == l % 2
    ensures l / 2 < Pow2(k - 1)
  {
    assert Shl(h, k) == 2 * Shl(h, k - 1) && Pow2(k) == 2 * Pow2(k - 1);
  }

  /** Or works on the high and the low part of its operands separately. */
  lemma {:induction false} OrSplit(h1: nat, l1: nat, h2: nat, l2: nat, k: nat)
    requires l1 < Pow2(k) && l2 < Pow2(k)
    ensures Or(Shl(h1, k) + l1, Shl(h2, k) + l2) == Shl(Or(h1, h2), k) + Or(l1, l2)
  {
    hide Pow2, Or;
    if k == 0 {
      LowIsZero(l1);
      LowIsZero(l2);
      OrZero(0);
    } else {
      HalfStep(h1, l1, k);
      HalfStep(h2, l2, k);
      OrSplit(h1, l1 / 2, h2, l2 / 2, k - 1);
      OrStep(Shl(h1, k) + l1, Shl(h2, k) + l2);
      OrStep(l1, l2);
    }
  }

  lemma LowIsZero(l: nat)
    ensures Pow2(0) == 1
    ensures l < Pow2(0) ==> l == 0
  {
  }

  lemma {:induction false} AndSplit(h1: nat, l1: nat, h2: nat, l2: nat, k: nat)
    requires l1 < Pow2(k) && l2 < Pow2(k)
    ensures And(Shl(h1, k) + l1, Shl(h2, k) + l2) == Shl(And(h1, h2), k) + And(l1, l2)
  {
    hide Pow2, And;
    if k == 0 {
      LowIsZero(l1);
      LowIsZero(l2);
      AndStep(0, 0);
    } else {
      HalfStep(h1, l1, k);
      HalfStep(h2, l2, k);
      AndSplit(h1, l1 / 2, h2, l2 / 2, k - 1);
      AndStep(Shl(h1, k) + l1, Shl(h2, k) + l2);
      AndStep(l1, l2);
    }
  }

  lemma {:induction false} OrStep(a: nat, b: nat)
    ensures Or(a, b) == 2 * Or(a / 2, b / 2) + (if a % 2 == 1 || b % 2 == 1 then 1 else 0)
  {
  }

  lemma {:induction false} AndStep(a: nat, b: nat)
    ensures And(a, b) == 2 * And(a / 2, b / 2) + (if a % 2 == 1 && b % 2 == 1 then 1 else 0)
  {
  }

  lemma {:induction false} ShlMul(a: nat, k: nat)
    ensures Shl(a, k) == a * Pow2(k)
  {
    if k > 0 {
      ShlMul(a, k - 1);
      assert a * Pow2(k) == 2 * (a * Pow2(k - 1));
    }
  }

  lemma AllOnesHalf(k: nat)
    requires k > 0
    ensures (Pow2(k) - 1) / 2 == Pow2(k - 1) - 1 && (Pow2(k) - 1) % 2 == 1
  {
    assert Pow2(k) == 2 * Pow2(k - 1);
  }

  /** Masking with 2^k - 1 keeps the k low bits. */
  lemma {:induction false} AndMask(h: nat, l: nat, k: nat)
    requires l < Pow2(k)
    ensures And(Shl(h, k) + l, Pow2(k) - 1) == l
  {
    if k > 0 {
      hide Pow2, And, Shl;
      HalfStep(h, l, k);
      AllOnesHalf(k);
      AndStep(Shl(h, k) + l, Pow2(k) - 1);
      AndMask(h, l / 2, k - 1);
    }
  }
}

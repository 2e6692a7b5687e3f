/** Unsigned machine words as natural numbers: bit tests, shifts and bitwise XOR. */
module Bits {

  function Pow2(n: nat): (r: nat)
    ensures r > 0
  {
    if n == 0 then 1 else 2 * Pow2(n - 1)
  }

  predicate Bit(x: nat, i: nat) {
    if i == 0 then x % 2 == 1 else Bit(x / 2, i - 1)
  }

  function Shl(x: nat, s: nat): nat {
    x * Pow2(s)
  }

  function Xor(a: nat, b: nat): nat
    decreases a + b
  {
    if a == 0 && b == 0 then 0 else 2 * Xor(a / 2, b / 2) + (a + b) % 2
  }

  lemma {:induction false} BitOfZero(i: nat)
    ensures !Bit(0, i)
  {
    if i > 0 { BitOfZero(i - 1); }
  }

  lemma XorHalves(a: nat, b: nat)
    ensures Xor(a, b) / 2 == Xor(a / 2, b / 2) && Xor(a, b) % 2 == (a + b) % 2
  {
  }

  lemma {:induction false} BitOfXor(a: nat, b: nat, i: nat)
    ensures Bit(Xor(a, b), i) == (Bit(a, i) != Bit(b, i))
  {
    hide Xor;
    XorHalves(a, b);
    if i > 0 { BitOfXor(a / 2, b / 2, i - 1); }
  }

  lemma {:induction false} BitOfShl(x: nat, s: nat, i: nat)
    ensures Bit(Shl(x, s), i) == (i >= s && Bit(x, i - s))
    decreases s
  {
    if s > 0 {
      assert Shl(x, s) == 2 * Shl(x, s - 1) by { DoubleShl(x, s); }
      if i > 0 { BitOfShl(x, s - 1, i - 1); }
    }
  }

  lemma DoubleShl(x: nat, s: nat)
    requires s > 0
    ensures Shl(x, s) == 2 * Shl(x, s - 1)
  {
    assert x * (2 * Pow2(s - 1)) == 2 * (x * Pow2(s - 1));
  }

  lemma BitOfPow2(s: nat, i: nat)
    ensures Bit(Pow2(s), i) == (i == s)
  {
    BitOfShl(1, s, i);
    if i > s {
      BitOfZero(i - s - 1);
    }
  }

  /** Two words with the same bits are the same word. */
  lemma {:induction false} SameBits(a: nat, b: nat)
    requires forall i: nat :: Bit(a, i) == Bit(b, i)
    ensures a == b
    decreases a + b
  {
    if a != 0 || b != 0 {
      forall i: nat ensures Bit(a / 2, i) == Bit(b / 2, i) {
        assert Bit(a, i + 1) == Bit(b, i + 1);
      }
      SameBits(a / 2, b / 2);
      assert Bit(a, 0) == Bit(b, 0);
    }
  }

  /** A word below 2^w has no bit at or above position w. */
  lemma {:induction false} NoBitsAbove(x: nat, w: nat, i: nat)
    requires x < Pow2(w) && i >= w
    ensures !Bit(x, i)
  {
    if w == 0 {
      BitOfZero(i);
    } else {
      NoBitsAbove(x / 2, w - 1, i - 1);
    }
  }

  /** Conversely, a word without such bits is below 2^w. */
  lemma {:induction false} BelowByBits(x: nat, w: nat)
    requires forall i: nat :: i >= w ==> !Bit(x, i)
    ensures x < Pow2(w)
  {
    if w == 0 {
      forall i: nat ensures Bit(x, i) == Bit(0, i) { BitOfZero(i); assert !Bit(x, i); }
      SameBits(x, 0);
    } else {
      forall i: nat | i >= w - 1 ensures !Bit(x / 2, i) { assert !Bit(x, i + 1); }
      BelowByBits(x / 2, w - 1);
    }
  }

  lemma XorBound(a: nat, b: nat, w: nat)
    requires a < Pow2(w) && b < Pow2(w)
    ensures Xor(a, b) < Pow2(w)
  {
    forall i: nat | i >= w ensures !Bit(Xor(a, b), i) {
      BitOfXor(a, b, i);
      NoBitsAbove(a, w, i);
      NoBitsAbove(b, w, i);
    }
    BelowByBits(Xor(a, b), w);
  }

  // ---- XOR as the addition of a group in which every element is its own inverse ----

  lemma XorZero(a: nat)
    ensures Xor(a, 0) == a && Xor(0, a) == a && Xor(a, a) == 0
  {
  }

  lemma XorComm(a: nat, b: nat)
    ensures Xor(a, b) == Xor(b, a)
  {
  }

  lemma XorAssoc(a: nat, b: nat, c: nat)
    ensures Xor(Xor(a, b), c) == Xor(a, Xor(b, c))
  {
    forall i: nat ensures Bit(Xor(Xor(a, b), c), i) == Bit(Xor(a, Xor(b, c)), i) {
      BitOfXor(a, b, i);
      BitOfXor(b, c, i);
      BitOfXor(Xor(a, b), c, i);
      BitOfXor(a, Xor(b, c), i);
    }
    SameBits(Xor(Xor(a, b), c), Xor(a, Xor(b, c)));
  }

  lemma XorRight(a: nat, b: nat, c: nat)
    ensures Xor(Xor(a, b), c) == Xor(Xor(a, c), b)
  {
    XorAssoc(a, b, c);
    XorComm(b, c);
    XorAssoc(a, c, b);
  }

  lemma XorSwap(a: nat, b: nat, c: nat, d: nat)
    ensures Xor(Xor(a, b), Xor(c, d)) == Xor(Xor(a, c), Xor(b, d))
  {
    XorAssoc(a, b, Xor(c, d));
    XorAssoc(b, c, d);
    XorComm(b, c);
    XorAssoc(c, b, d);
    XorAssoc(a, c, Xor(b, d));
  }

  lemma XorCancel(a: nat, b: nat)
    ensures Xor(Xor(a, b), b) == a && Xor(b, Xor(b, a)) == a
  {
    XorAssoc(a, b, b);
    XorAssoc(b, b, a);
    XorZero(a);
    XorZero(b);
  }

  lemma EqualIfXorZero(a: nat, b: nat)
    requires Xor(a, b) == 0
    ensures a == b
  {
    XorCancel(a, b);
    XorZero(b);
  }
}

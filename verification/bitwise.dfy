/** Unsigned words as naturals: the `^`, `>> 1` and `& 1` of the checksum
    code, with the algebra of exclusive or that the table-driven CRC relies on. */
module Bitwise {

  /** 2^k. */
  function Pow2(k: nat): (r: nat)
    ensures r > 0
  {
    if k == 0 then 1 else 2 * Pow2(k - 1)
  }

  /** Exclusive or, bit by bit from the least significant: the low bit is
      set iff the operands' low bits differ, and the rest is the exclusive or
      of the operands shifted right by one. */
  function Xor(a: nat, b: nat): nat
    decreases a + b
  {
    if a == 0 && b == 0 then 0
    else 2 * Xor(a / 2, b / 2) + (if a % 2 == b % 2 then 0 else 1)
  }

  /** The recursive equation holds for every pair, zero included. */
  lemma XorUnfold(a: nat, b: nat)
    ensures Xor(a, b) == 2 * Xor(a / 2, b / 2) + (if a % 2 == b % 2 then 0 else 1)
  {
  }

  /** The same equation read as `& 1` and `>> 1` of the result. */
  lemma XorHalf(a: nat, b: nat)
    ensures Xor(a, b) % 2 == (if a % 2 == b % 2 then 0 else 1)
    ensures Xor(a, b) / 2 == Xor(a / 2, b / 2)
  {
  }

  /** Zero is the identity. */
  lemma {:induction false} XorZero(a: nat)
    ensures Xor(a, 0) == a && Xor(0, a) == a
    decreases a
  {
    if a > 0 {
      XorZero(a / 2);
    }
  }

  lemma {:induction false} XorComm(a: nat, b: nat)
    ensures Xor(a, b) == Xor(b, a)
    decreases a + b
  {
    if a != 0 || b != 0 {
      XorComm(a / 2, b / 2);
    }
  }

  /** Every word is its own inverse. */
  lemma {:induction false} XorSelf(a: nat)
    ensures Xor(a, a) == 0
    decreases a
  {
    if a > 0 {
      XorSelf(a / 2);
    }
  }

  lemma {:induction false} XorAssoc(a: nat, b: nat, c: nat)
    ensures Xor(Xor(a, b), c) == Xor(a, Xor(b, c))
    decreases a + b + c
  {
    if a != 0 || b != 0 || c != 0 {
      XorAssoc(a / 2, b / 2, c / 2);
      XorHalf(a, b);
      XorHalf(b, c);
      XorUnfold(Xor(a, b), c);
      XorUnfold(a, Xor(b, c));
    }
  }

  /** Exclusive or of two k-bit words is a k-bit word: no carry, no overflow. */
  lemma {:induction false} XorBound(a: nat, b: nat, k: nat)
    requires a < Pow2(k) && b < Pow2(k)
    ensures Xor(a, b) < Pow2(k)
  {
    if k > 0 && (a != 0 || b != 0) {
      XorBound(a / 2, b / 2, k - 1);
    }
  }

  lemma MulAssoc(a: nat, b: nat, c: nat)
    ensures a * b * c == a * (b * c)
  {
  }

  /** A word below 2^k and a multiple of 2^k share no bit, so their
      exclusive or is their sum. */
  lemma {:induction false} XorDisjoint(l: nat, h: nat, k: nat)
    requires l < Pow2(k)
    ensures Xor(l, Pow2(k) * h) == l + Pow2(k) * h
  {
    if k == 0 {
      XorZero(h);
    } else {
      var p := Pow2(k - 1);
      var m := p * h;
      assert Pow2(k) * h == 2 * m by {
        assert Pow2(k) == 2 * p;
        MulAssoc(2, p, h);
      }
      assert (2 * m) / 2 == m && (2 * m) % 2 == 0;
      XorDisjoint(l / 2, h, k - 1);
      XorUnfold(l, 2 * m);
      assert l == 2 * (l / 2) + l % 2;
    }
  }
}

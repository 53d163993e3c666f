/** Bitwise operations on machine words, as functions on natural numbers. */
module Words {
  import opened Basics

  function Pow2(k: nat): (p: nat)
    ensures p >= 1
  {
    if k == 0 then 1 else 2 * Pow2(k - 1)
  }

  predicate Bit(x: nat, k: nat)
    decreases k
  {
    if k == 0 then x % 2 == 1 else Bit(x / 2, k - 1)
  }

  function And(x: nat, y: nat): nat {
    if x == 0 || y == 0 then 0 else 2 * And(x / 2, y / 2) + (if x % 2 == 1 && y % 2 == 1 then 1 else 0)
  }

  function Or(x: nat, y: nat): nat {
    if x == 0 then y else if y == 0 then x else 2 * Or(x / 2, y / 2) + (if x % 2 == 1 || y % 2 == 1 then 1 else 0)
  }

  function Xor(x: nat, y: nat): nat {
    if x == 0 then y else if y == 0 then x else 2 * Xor(x / 2, y / 2) + (if x % 2 != y % 2 then 1 else 0)
  }

  /** The complement of an `n`-bit word. */
  function Not(x: nat, n: nat): nat
    requires x < Pow2(n)
  {
    Pow2(n) - 1 - x
  }

  lemma {:induction false} ZeroBits(k: nat)
    ensures !Bit(0, k)
    decreases k
  {
    if k > 0 { ZeroBits(k - 1); }
  }

  lemma {:induction false} AndBit(x: nat, y: nat, k: nat)
    ensures Bit(And(x, y), k) == (Bit(x, k) && Bit(y, k))
    decreases k
  {
    if x == 0 || y == 0 { ZeroBits(k); } else if k > 0 { AndBit(x / 2, y / 2, k - 1); }
  }

  lemma {:induction false} OrBit(x: nat, y: nat, k: nat)
    ensures Bit(Or(x, y), k) == (Bit(x, k) || Bit(y, k))
    decreases k
  {
    if x == 0 || y == 0 { ZeroBits(k); } else if k > 0 { OrBit(x / 2, y / 2, k - 1); }
  }

  lemma {:induction false} XorBit(x: nat, y: nat, k: nat)
    ensures Bit(Xor(x, y), k) == (Bit(x, k) != Bit(y, k))
    decreases k
  {
    if x == 0 || y == 0 { ZeroBits(k); } else if k > 0 { XorBit(x / 2, y / 2, k - 1); }
  }

  lemma {:induction false} NotBit(x: nat, n: nat, k: nat)
    requires x < Pow2(n) && k < n
    ensures Bit(Not(x, n), k) == !Bit(x, k)
    decreases k
  {
    HalfNot(x, Pow2(n - 1));
    if k > 0 { NotBit(x / 2, n - 1, k - 1); }
  }

  lemma {:induction false} HalfNot(x: nat, p: nat)
    requires x < 2 * p
    ensures x / 2 < p && (2 * p - 1 - x) / 2 == p - 1 - x / 2 && (2 * p - 1 - x) % 2 == 1 - x % 2
  {
  }

  lemma {:induction false} Pow2Bit(i: nat, k: nat)
    ensures Bit(Pow2(i), k) == (k == i)
    decreases k
  {
    if k == 0 {
    } else if i == 0 {
      ZeroBits(k - 1);
    } else {
      Pow2Bit(i - 1, k - 1);
    }
  }

  /** The results of the operations are words of the same size. */
  lemma {:induction false} Fits(x: nat, y: nat, n: nat)
    requires x < Pow2(n) && y < Pow2(n)
    ensures And(x, y) < Pow2(n) && Or(x, y) < Pow2(n) && Xor(x, y) < Pow2(n)
    decreases n
  {
    if n > 0 { Fits(x / 2, y / 2, n - 1); }
  }

  lemma {:induction false} Pow2Grows(i: nat, n: nat)
    requires i < n
    ensures 2 * Pow2(i) <= Pow2(n)
    decreases n
  {
    if i < n - 1 { Pow2Grows(i, n - 1); }
  }

  lemma {:induction false} Pow2At31()
    ensures Pow2(1) == 2 && Pow2(2) == 4 && Pow2(4) == 16 && Pow2(8) == 256 && Pow2(16) == 0x1_0000
    ensures Pow2(24) == 0x100_0000 && Pow2(31) == B31 && Pow2(32) == B32
  {
    assert Pow2(8) == 256;
    assert Pow2(12) == 4096;
    assert Pow2(16) == 0x1_0000;
    assert Pow2(20) == 0x10_0000;
    assert Pow2(24) == 0x100_0000;
    assert Pow2(28) == 0x1000_0000;
    assert Pow2(31) == B31;
  }
}

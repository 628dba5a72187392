// Bitwise operators on natural numbers, read off the binary digits, and the arithmetic facts that
// the word-level code relies on.

module Bits {

  function Pow2(n: nat): (p: nat)
    ensures p > 0 && (n == 0 ==> p == 1)
  {
    if n == 0 then 1 else 2 * Pow2(n - 1)
  }

  lemma {:induction false} Pow2Monotone(i: nat, j: nat)
    requires i <= j
    ensures Pow2(i) <= Pow2(j)
  {
    if i < j {
      Pow2Monotone(i, j - 1);
    }
  }

  lemma Pow2Doubles(n: nat)
    ensures Pow2(n + 1) == 2 * Pow2(n)
  {
  }

  // x & y
  function BitAnd(x: nat, y: nat): (z: nat)
    ensures z <= x && z <= y
    decreases x + y
  {
    if x == 0 || y == 0 then 0
    else 2 * BitAnd(x / 2, y / 2) + (if x % 2 == 1 && y % 2 == 1 then 1 else 0)
  }

  // x | y
  function BitOr(x: nat, y: nat): nat
    decreases x + y
  {
    if x == 0 then y
    else if y == 0 then x
    else 2 * BitOr(x / 2, y / 2) + (if x % 2 == 1 || y % 2 == 1 then 1 else 0)
  }

  // The number of one bits.
  function OneBits(n: nat): (c: nat)
    ensures c > 0 <==> n > 0
  {
    if n == 0 then 0 else OneBits(n / 2) + n % 2
  }

  lemma {:induction false} BitAndDigit(x: nat, i: nat, y: nat, j: nat)
    requires i < 2 && j < 2
    ensures BitAnd(2 * x + i, 2 * y + j) == 2 * BitAnd(x, y) + (if i == 1 && j == 1 then 1 else 0)
  {
  }

  lemma {:induction false} BitAndSelf(n: nat)
    ensures BitAnd(n, n) == n
  {
    if n != 0 {
      BitAndSelf(n / 2);
    }
  }

  // Bit k of x.
  predicate TestBit(x: nat, k: nat) {
    if k == 0 then x % 2 == 1 else TestBit(x / 2, k - 1)
  }

  lemma {:induction false} TestBitOfZero(j: nat)
    ensures !TestBit(0, j)
  {
    if j > 0 {
      TestBitOfZero(j - 1);
    }
  }

  lemma {:induction false} TestBitOfPow2(k: nat, j: nat)
    ensures TestBit(Pow2(k), j) <==> j == k
  {
    if k > 0 {
      if j > 0 {
        TestBitOfPow2(k - 1, j - 1);
      }
    } else if j > 0 {
      TestBitOfZero(j - 1);
    }
  }

  lemma BitOrDigit(x: nat, y: nat)
    ensures BitOr(x, y) / 2 == BitOr(x / 2, y / 2)
    ensures BitOr(x, y) % 2 == 1 <==> x % 2 == 1 || y % 2 == 1
  {
  }

  lemma BitOrZero(x: nat)
    ensures BitOr(0, x) == BitOr(x, 0) == x
  {
  }

  // x | y has a bit exactly if x or y has it.
  lemma {:induction false} TestBitOfOr(x: nat, y: nat, k: nat)
    ensures TestBit(BitOr(x, y), k) <==> TestBit(x, k) || TestBit(y, k)
  {
    BitOrDigit(x, y);
    if k > 0 {
      TestBitOfOr(x / 2, y / 2, k - 1);
    }
  }

  lemma {:induction false} BitOrBound(x: nat, y: nat, n: nat)
    requires x < Pow2(n) && y < Pow2(n)
    ensures BitOr(x, y) < Pow2(n)
  {
    if n > 0 {
      BitOrBound(x / 2, y / 2, n - 1);
      BitOrDigit(x, y);
    }
  }

  // x & (1 << k) is not zero exactly if x has bit k.
  lemma {:induction false} BitAndTestsBit(x: nat, k: nat)
    ensures BitAnd(x, Pow2(k)) != 0 <==> TestBit(x, k)
  {
    if k == 0 {
      BitAndDigit(x / 2, x % 2, 0, 1);
      assert BitAnd(x / 2, 0) == 0;
    } else {
      BitAndDigit(x / 2, x % 2, Pow2(k - 1), 0);
      BitAndTestsBit(x / 2, k - 1);
    }
  }
}

/** Bit-level helpers over natural numbers, standing in for Python's `&`, `|`, `^`,
    `>>` and `<<` on the non-negative integers the decoder manipulates. */
module Bits {

  /** 2 to the power n (`1 << n`). */
  function Pow2(n: nat): (r: nat)
    ensures r >= 1
  {
    if n == 0 then 1 else 2 * Pow2(n - 1)
  }

  /** Bit b of x, `(x >> b) & 1`. */
  function Bit(x: nat, b: nat): (r: nat)
    ensures r <= 1
  {
    if b == 0 then x % 2 else Bit(x / 2, b - 1)
  }

  /** Bitwise or, `x | y`. */
  function Or(x: nat, y: nat): nat
    decreases x + y
  {
    if x == 0 then y
    else if y == 0 then x
    else 2 * Or(x / 2, y / 2) + (if x % 2 == 1 || y % 2 == 1 then 1 else 0)
  }

  /** Bitwise and, `x & y`. */
  function And(x: nat, y: nat): nat
    decreases x + y
  {
    if x == 0 || y == 0 then 0
    else 2 * And(x / 2, y / 2) + (if x % 2 == 1 && y % 2 == 1 then 1 else 0)
  }

  /** Bitwise exclusive or, `x ^ y`. */
  function Xor(x: nat, y: nat): nat
    decreases x + y
  {
    if x == 0 then y
    else if y == 0 then x
    else 2 * Xor(x / 2, y / 2) + (if x % 2 != y % 2 then 1 else 0)
  }

  lemma {:induction false} Pow2Step(n: nat)
    ensures Pow2(n + 1) == 2 * Pow2(n)
  {
  }

  lemma {:induction false} BitOfZero(b: nat)
    ensures Bit(0, b) == 0
  {
    if b > 0 { BitOfZero(b - 1); }
  }

  lemma {:induction false} BitOr(x: nat, y: nat, b: nat)
    ensures Bit(Or(x, y), b) == if Bit(x, b) == 1 || Bit(y, b) == 1 then 1 else 0
    decreases b
  {
    if x == 0 {
      BitOfZero(b);
    } else if y == 0 {
      BitOfZero(b);
    } else if b > 0 {
      BitOr(x / 2, y / 2, b - 1);
    }
  }

  lemma {:induction false} BitXor(x: nat, y: nat, b: nat)
    ensures Bit(Xor(x, y), b) == if Bit(x, b) != Bit(y, b) then 1 else 0
    decreases b
  {
    if x == 0 {
      BitOfZero(b);
    } else if y == 0 {
      BitOfZero(b);
    } else if b > 0 {
      BitXor(x / 2, y / 2, b - 1);
    }
  }

  /** Bit b of `1 << k` is set exactly when b == k. */
  lemma {:induction false} BitPow2(k: nat, b: nat)
    ensures Bit(Pow2(k), b) == if b == k then 1 else 0
    decreases b
  {
    if k == 0 {
      if b > 0 { BitOfZero(b - 1); }
    } else if b > 0 {
      BitPow2(k - 1, b - 1);
    }
  }

  /** `x & (1 << k)` is non-zero exactly when bit k of x is set. */
  lemma {:induction false} AndPow2(x: nat, k: nat)
    ensures And(x, Pow2(k)) != 0 <==> Bit(x, k) == 1
    decreases k
  {
    if x == 0 {
      BitOfZero(k);
    } else if k > 0 {
      assert Pow2(k) / 2 == Pow2(k - 1) && Pow2(k) % 2 == 0;
      AndPow2(x / 2, k - 1);
    }
  }

  /** A number below 2^n has no bit at position n or above. */
  lemma {:induction false} BitAbove(x: nat, n: nat, b: nat)
    requires x < Pow2(n) && b >= n
    ensures Bit(x, b) == 0
    decreases b
  {
    if n == 0 {
      BitOfZero(b);
    } else {
      BitAbove(x / 2, n - 1, b - 1);
    }
  }

  /** Numbers below 2^n with the same low n bits are equal. */
  lemma {:induction false} BitsDetermine(x: nat, y: nat, n: nat)
    requires x < Pow2(n) && y < Pow2(n)
    requires forall b :: 0 <= b < n ==> Bit(x, b) == Bit(y, b)
    ensures x == y
    decreases n
  {
    if n > 0 {
      assert Bit(x, 0) == Bit(y, 0);
      forall b | 0 <= b < n - 1 ensures Bit(x / 2, b) == Bit(y / 2, b) {
        assert Bit(x, b + 1) == Bit(y, b + 1);
      }
      BitsDetermine(x / 2, y / 2, n - 1);
    }
  }

  lemma {:induction false} OrBound(x: nat, y: nat, n: nat)
    requires x < Pow2(n) && y < Pow2(n)
    ensures Or(x, y) < Pow2(n)
    decreases n
  {
    if x != 0 && y != 0 {
      OrBound(x / 2, y / 2, n - 1);
    }
  }

  lemma {:induction false} XorBound(x: nat, y: nat, n: nat)
    requires x < Pow2(n) && y < Pow2(n)
    ensures Xor(x, y) < Pow2(n)
    decreases n
  {
    if x != 0 && y != 0 {
      XorBound(x / 2, y / 2, n - 1);
    }
  }

  /** `x ^ (2^n - 1)` on an n-bit number is its complement `2^n - 1 - x`. */
  lemma {:induction false} XorAllOnes(x: nat, n: nat)
    requires x < Pow2(n)
    ensures Xor(x, Pow2(n) - 1) == Pow2(n) - 1 - x
    decreases n
  {
    if n > 0 && x != 0 && Pow2(n) - 1 != 0 {
      XorAllOnes(x / 2, n - 1);
    }
  }

  /** A number below 2^(n+1) whose bit n is clear is below 2^n. */
  lemma {:induction false} TopBitClear(x: nat, n: nat)
    requires x < Pow2(n + 1) && Bit(x, n) == 0
    ensures x < Pow2(n)
    decreases n
  {
    if n > 0 {
      TopBitClear(x / 2, n - 1);
    }
  }

  lemma {:induction false} Pow2Less(j: nat, k: nat)
    requires j < k
    ensures Pow2(j) < Pow2(k)
    decreases k
  {
    if j < k - 1 {
      Pow2Less(j, k - 1);
    }
  }

  /** Or-ing in a bit leaves every other bit as it was and sets that one. */
  lemma OrPow2Bit(x: nat, k: nat, b: nat)
    ensures Bit(Or(x, Pow2(k)), b) == if b == k then 1 else Bit(x, b)
  {
    BitOr(x, Pow2(k), b);
    BitPow2(k, b);
  }
}

/** Powers of two and bitwise OR on nonnegative integers, the arithmetic under the
    shifts and masks of the wire codecs.

    Some lemmas here and in Wire take a bit position that a precondition pins to one number
    (n == 28): passed as a variable, it keeps the verifier from computing Pow2 and Shl of a
    literal step by step. */
module Bits {

  const U32 := 0x1_0000_0000
  const U64 := 0x1_0000_0000_0000_0000

  function Pow2(n: nat): (p: nat)
    ensures p >= 1
  {
    if n == 0 then 1 else 2 * Pow2(n - 1)
  }

  lemma Pow2Values()
    ensures Pow2(0) == 1 && Pow2(3) == 8 && Pow2(4) == 16 && Pow2(7) == 128 && Pow2(8) == 256
    ensures Pow2(31) == 0x8000_0000 && Pow2(32) == U32 && Pow2(63) == U64 / 2 && Pow2(64) == U64
  {
    Pow2Word(32);
    Pow2Add(32, 32);
  }

  lemma Pow2Word(n: nat)
    requires n == 32
    ensures Pow2(n) == U32 && Pow2(n - 1) == 0x8000_0000
  {
    assert Pow2(8) == 256;
    Pow2Add(8, 8);
    Pow2Add(16, 16);
  }

  lemma {:induction false} Pow2Add(a: nat, b: nat)
    ensures Pow2(a + b) == Pow2(a) * Pow2(b)
  {
    if a > 0 {
      Pow2Add(a - 1, b);
    }
  }

  lemma {:induction false} Pow2Monotone(a: nat, b: nat)
    requires a <= b
    ensures Pow2(a) <= Pow2(b)
    decreases b
  {
    if a < b {
      Pow2Monotone(a, b - 1);
    }
  }

  /** Bitwise inclusive or. */
  function Or(a: nat, b: nat): (r: nat)
  {
    if a == 0 then b
    else if b == 0 then a
    else 2 * Or(a / 2, b / 2) + (if a % 2 == 1 || b % 2 == 1 then 1 else 0)
  }

  /** One unfolding of Or that holds for every pair, the zero cases included. */
  lemma OrStep(a: nat, b: nat)
    ensures Or(a, b) / 2 == Or(a / 2, b / 2)
    ensures Or(a, b) % 2 == if a % 2 == 1 || b % 2 == 1 then 1 else 0
  {
  }

  /** Left shift. */
  function Shl(x: nat, n: nat): (r: nat)
    ensures n == 0 ==> r == x
  {
    if n == 0 then x else 2 * Shl(x, n - 1)
  }

  lemma Pow2Seven(n: nat)
    ensures Pow2(n + 7) == 128 * Pow2(n)
  {
    assert Pow2(n + 7) == 2 * Pow2(n + 6);
    assert Pow2(n + 5) == 2 * Pow2(n + 4);
    assert Pow2(n + 3) == 2 * Pow2(n + 2);
  }

  lemma ShlSeven(x: nat, n: nat)
    ensures Shl(x, n + 7) == 128 * Shl(x, n)
  {
    assert Shl(x, n + 7) == 2 * Shl(x, n + 6);
    assert Shl(x, n + 5) == 2 * Shl(x, n + 4);
    assert Shl(x, n + 3) == 2 * Shl(x, n + 2);
  }

  /** A shifted number is its low seven bits and the rest, each shifted. */
  lemma {:induction false} ShlSplit(v: nat, n: nat)
    ensures Shl(v, n) == Shl(v % 128, n) + Shl(v / 128, n + 7)
  {
    if n == 0 {
      ShlSeven(v / 128, 0);
    } else {
      ShlSplit(v, n - 1);
    }
  }

  lemma {:induction false} ShlSmall(x: nat, n: nat)
    requires x < 128
    ensures Shl(x, n) + Pow2(n) <= Pow2(n + 7)
  {
    if n == 0 {
      Pow2Seven(0);
    } else {
      ShlSmall(x, n - 1);
    }
  }

  lemma {:induction false} ShlAtLeast(x: nat, n: nat)
    requires x >= 1
    ensures Shl(x, n) >= Pow2(n)
  {
    if n > 0 {
      ShlAtLeast(x, n - 1);
    }
  }

  lemma {:induction false} ShlMul(x: nat, n: nat)
    ensures Shl(x, n) == x * Pow2(n)
  {
    if n > 0 {
      ShlMul(x, n - 1);
      Doubled(x, Pow2(n - 1));
    }
  }

  lemma Doubled(x: nat, p: nat)
    ensures 2 * (x * p) == x * (2 * p)
  {
  }

  /** Or of numbers that share no bit position is their sum. */
  lemma {:induction false} OrDisjoint(a: nat, c: nat, s: nat)
    requires a < Pow2(s)
    ensures Or(a, Shl(c, s)) == a + Shl(c, s)
    decreases s
  {
    if s > 0 {
      OrDisjoint(a / 2, c, s - 1);
      OrStep(a, Shl(c, s));
    }
  }

  /** Quotient and remainder are unique. */
  lemma ModUnique(x: int, d: int, q: int, r: int)
    requires d > 0 && 0 <= r < d && x == d * q + r
    ensures x / d == q && x % d == r
  {
    SmallMultiple(d, x / d - q);
  }

  lemma SmallMultiple(d: int, k: int)
    requires d > 0 && -d < d * k < d
    ensures k == 0
  {
  }

  /** A shift by 32 or more is a multiple of 2^32. */
  lemma {:induction false} ShlHigh(x: nat, n: nat)
    requires n >= 32
    ensures Shl(x, n) == U32 * Shl(x, n - 32)
    decreases n
  {
    if n == 32 {
      ShlMul(x, 32);
      Pow2Values();
    } else {
      ShlHigh(x, n - 1);
    }
  }

  /** What still fits in the top k bits of an (n + k)-bit word is below 2^k. */
  lemma {:induction false} FitsAtTop(v: nat, n: nat, k: nat)
    requires Shl(v, n) < Pow2(n + k)
    ensures v < Pow2(k)
    decreases n
  {
    if n > 0 {
      FitsAtTop(v, n - 1, k);
    }
  }
}

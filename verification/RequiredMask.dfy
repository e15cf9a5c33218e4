/** The fields_seen bitmask of pb_decode_noinit: two 32-bit words, one bit per required
    field. */
module RequiredMask {
  import opened Bits

  /** The number whose binary digits, lowest first, are bits. */
  function Word(bits: seq<bool>): (w: nat)
  {
    if bits == [] then 0 else (if bits[0] then 1 else 0) + 2 * Word(bits[1..])
  }

  lemma {:induction false} WordInjective(a: seq<bool>, b: seq<bool>)
    requires |a| == |b| && Word(a) == Word(b)
    ensures a == b
  {
    if a != [] {
      WordInjective(a[1..], b[1..]);
      assert a == [a[0]] + a[1..] && b == [b[0]] + b[1..];
    }
  }

  lemma {:induction false} WordZero(n: nat)
    ensures Word(seq(n, _ => false)) == 0
  {
    if n > 0 {
      WordZero(n - 1);
      assert seq(n, _ => false)[1..] == seq(n - 1, _ => false);
    }
  }

  /** word |= 1 << i */
  lemma {:induction false} WordSet(bits: seq<bool>, i: nat)
    requires i < |bits|
    ensures Or(Word(bits), Pow2(i)) == Word(bits[i := true])
  {
    OrStep(Word(bits), Pow2(i));
    if i == 0 {
      assert bits[0 := true][1..] == bits[1..];
    } else {
      WordSet(bits[1..], i - 1);
      assert bits[i := true][1..] == bits[1..][i - 1 := true];
    }
  }

  /** n digits of which the lowest r are ones. */
  function LowOnes(n: nat, r: nat): (bits: seq<bool>)
    ensures |bits| == n
  {
    seq(n, i => i < r)
  }

  lemma {:induction false} WordLowOnes(n: nat, r: nat)
    requires r <= n
    ensures Word(LowOnes(n, r)) == Pow2(r) - 1
  {
    if n > 0 {
      if r == 0 {
        WordLowOnes(n - 1, 0);
        assert LowOnes(n, 0)[1..] == LowOnes(n - 1, 0);
      } else {
        WordLowOnes(n - 1, r - 1);
        assert LowOnes(n, r)[1..] == LowOnes(n - 1, r - 1);
      }
    }
  }

  /** The 32 membership bits of the indices from base on. */
  ghost function BitsOf(seen: set<nat>, base: nat): (bits: seq<bool>)
    ensures |bits| == 32
  {
    seq(32, i requires 0 <= i => base + i in seen)
  }

  /** words is fields_seen with exactly the bits of seen set. */
  ghost predicate Holds(words: seq<nat>, seen: set<nat>)
  {
    |words| == 2 && words[0] == Word(BitsOf(seen, 0)) && words[1] == Word(BitsOf(seen, 32))
  }

  method Empty() returns (words: seq<nat>)
    ensures Holds(words, {})
  {
    words := [0, 0];
    WordZero(32);
    assert BitsOf({}, 0) == seq(32, _ => false) && BitsOf({}, 32) == seq(32, _ => false);
  }

  lemma BitsSame(seen: set<nat>, q: nat, base: nat)
    requires q < base || q >= base + 32
    ensures BitsOf(seen + {q}, base) == BitsOf(seen, base)
  {
  }

  lemma BitsSet(seen: set<nat>, q: nat, base: nat)
    requires base <= q < base + 32
    ensures BitsOf(seen + {q}, base) == BitsOf(seen, base)[q - base := true]
  {
  }

  /** fields_seen[q >> 5] |= 1 << (q & 31) */
  method Mark(words: seq<nat>, q: nat, ghost seen: set<nat>) returns (r: seq<nat>)
    requires Holds(words, seen) && q < 64
    ensures Holds(r, seen + {q})
  {
    r := words[q / 32 := Or(words[q / 32], Pow2(q % 32))];
    if q < 32 {
      BitsSet(seen, q, 0);
      BitsSame(seen, q, 32);
      WordSet(BitsOf(seen, 0), q);
    } else {
      BitsSame(seen, q, 0);
      BitsSet(seen, q, 32);
      WordSet(BitsOf(seen, 32), q - 32);
    }
  }

  /** A word equals 2^r - 1 exactly when its lowest r bits are set and no other. */
  lemma LowOnesExact(seen: set<nat>, base: nat, r: nat)
    requires r <= 32
    ensures Word(BitsOf(seen, base)) == Pow2(r) - 1 <==>
            (forall q :: base <= q < base + 32 ==> (q in seen <==> q < base + r))
  {
    hide Pow2, Word;
    WordLowOnes(32, r);
    var bits, ones := BitsOf(seen, base), LowOnes(32, r);
    if Word(bits) == Pow2(r) - 1 {
      WordInjective(bits, ones);
      forall q | base <= q < base + 32 ensures q in seen <==> q < base + r {
        assert bits[q - base] == ones[q - base];
      }
    }
    if forall q :: base <= q < base + 32 ==> (q in seen <==> q < base + r) {
      assert bits == ones;
    }
  }

  /** allbits >> (32 - r) */
  lemma AllBitsShifted(r: nat)
    requires r <= 32
    ensures (U32 - 1) / Pow2(32 - r) == Pow2(r) - 1
  {
    hide Pow2;
    Pow2Values();
    Pow2Add(r, 32 - r);
    OnesQuotient(Pow2(r), Pow2(32 - r));
  }

  lemma OnesQuotient(q: nat, p: nat)
    requires p >= 1 && q >= 1
    ensures (q * p - 1) / p == q - 1
  {
    assert q * p - 1 == p * (q - 1) + (p - 1);
    ModUnique(q * p - 1, p, q - 1, p - 1);
  }

  /** The word-and-remainder comparison passes exactly when each of the n required fields
      was seen. It compares for equality, so it relies on no bit from n on being set. */
  method AllSeen(words: seq<nat>, n: nat, ghost seen: set<nat>) returns (ok: bool)
    requires Holds(words, seen) && n <= 64
    requires forall q :: q in seen ==> q < n
    ensures ok <==> forall q :: 0 <= q < n ==> q in seen
  {
    var i := 0;
    while i < n / 32
      invariant 0 <= i <= n / 32
      invariant forall q :: 0 <= q < 32 * i ==> q in seen
    {
      WholeWord(words, i, seen);
      if words[i] != U32 - 1 {
        return false;
      }
      i := i + 1;
    }
    if n % 32 != 0 {
      AllBitsShifted(n % 32);
      RestWord(words, n, seen);
      if words[n / 32] != (U32 - 1) / Pow2(32 - n % 32) {
        return false;
      }
    }
    return true;
  }

  lemma WholeWord(words: seq<nat>, i: nat, seen: set<nat>)
    requires Holds(words, seen) && i < 2
    ensures words[i] == U32 - 1 <==> forall q :: 32 * i <= q < 32 * i + 32 ==> q in seen
  {
    hide Word, BitsOf, Pow2;
    Pow2Values();
    LowOnesExact(seen, 32 * i, 32);
  }

  lemma RestWord(words: seq<nat>, n: nat, seen: set<nat>)
    requires Holds(words, seen) && n < 64
    requires forall q :: q in seen ==> q < n
    ensures words[n / 32] == Pow2(n % 32) - 1 <==> forall q :: n - n % 32 <= q < n ==> q in seen
  {
    hide Word, BitsOf, Pow2;
    LowOnesExact(seen, n - n % 32, n % 32);
  }
}

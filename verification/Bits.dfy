/**
 The bit map of required fields: two 32-bit words against the set of indices
 they stand for.
 */
module Bits {
  import opened Wire
  import opened Varint

  /** The n lowest bits of a word whose bit k says whether base + k is in the set. */
  ghost function Word(s: set<nat>, base: nat, n: nat): nat {
    if n == 0 then 0 else Word(s, base, n - 1) + if base + n - 1 in s then Pow2(n - 1) else 0
  }

  /** `word |= 1 << k` */
  function SetBit(w: nat, k: nat): nat {
    if (w / Pow2(k)) % 2 == 1 then w else w + Pow2(k)
  }

  /** `allbits >> (32 - k)` */
  function LowBits(k: nat): nat {
    Pow2(k) - 1
  }

  lemma {:induction false} WordBound(s: set<nat>, base: nat, n: nat)
    ensures Word(s, base, n) <= LowBits(n)
    ensures Word(s, base, n) == LowBits(n) <==> forall k :: base <= k < base + n ==> k in s
  {
    if n > 0 {
      WordBound(s, base, n - 1);
    }
  }

  /** Bits that are not set above the k lowest add nothing. */
  lemma {:induction false} WordLow(s: set<nat>, base: nat, k: nat, n: nat)
    requires k <= n && forall j :: j in s ==> j < base + k
    ensures Word(s, base, n) == Word(s, base, k)
  {
    if k < n {
      WordLow(s, base, k, n - 1);
    }
  }

  lemma {:induction false} WordOfEmpty(base: nat, n: nat)
    ensures Word({}, base, n) == 0
  {
    if n > 0 {
      WordOfEmpty(base, n - 1);
    }
  }

  lemma {:induction false} WordElsewhere(s: set<nat>, base: nat, n: nat, x: nat)
    requires x < base || base + n <= x
    ensures Word(s + {x}, base, n) == Word(s, base, n)
  {
    if n > 0 {
      WordElsewhere(s, base, n - 1, x);
    }
  }

  /** The word above bit k is a multiple of 2^(k+1). */
  lemma {:induction false} WordSplit(s: set<nat>, base: nat, k: nat, n: nat) returns (high: nat)
    requires k < n
    ensures Word(s, base, n) == Word(s, base, k) + (if base + k in s then Pow2(k) else 0) + high * (2 * Pow2(k))
  {
    if n == k + 1 {
      high := 0;
    } else {
      high := WordSplit(s, base, k, n - 1);
      if base + n - 1 in s {
        Pow2Add(k + 1, n - 1 - (k + 1));
        var p := Pow2(n - 1 - (k + 1));
        assert Pow2(n - 1) == p * (2 * Pow2(k));
        assert (high + p) * (2 * Pow2(k)) == high * (2 * Pow2(k)) + p * (2 * Pow2(k));
        high := high + p;
      }
    }
  }

  lemma BitOfWord(s: set<nat>, base: nat, k: nat, n: nat)
    requires k < n
    ensures (Word(s, base, n) / Pow2(k)) % 2 == 1 <==> base + k in s
  {
    var high := WordSplit(s, base, k, n);
    WordBound(s, base, k);
    var bit := if base + k in s then 1 else 0;
    Regroup(bit, high, Pow2(k));
    QuotientAndRemainder(Word(s, base, n), Pow2(k), bit + 2 * high, Word(s, base, k));
    OddEven(bit, high);
  }

  lemma OddEven(bit: nat, high: nat)
    requires bit <= 1
    ensures (bit + 2 * high) % 2 == bit
  {
  }

  lemma Regroup(bit: nat, high: nat, p: nat)
    requires bit <= 1
    ensures (bit + 2 * high) * p == (if bit == 1 then p else 0) + high * (2 * p)
  {
    assert (bit + 2 * high) * p == bit * p + (2 * high) * p;
  }

  lemma {:induction false} WordPlus(s: set<nat>, base: nat, n: nat, k: nat)
    requires k < n && base + k !in s
    ensures Word(s + {base + k}, base, n) == Word(s, base, n) + Pow2(k)
  {
    if k == n - 1 {
      WordElsewhere(s, base, n - 1, base + k);
    } else {
      WordPlus(s, base, n - 1, k);
    }
  }

  /** Setting a bit adds its index to the set. */
  lemma SetBitIs(s: set<nat>, base: nat, n: nat, k: nat)
    requires k < n
    ensures SetBit(Word(s, base, n), k) == Word(s + {base + k}, base, n)
  {
    BitOfWord(s, base, k, n);
    if base + k in s {
      assert s + {base + k} == s;
    } else {
      WordPlus(s, base, n, k);
    }
  }
}

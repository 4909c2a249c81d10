/** Power-of-two group counts, and the mapping from a hash word to a group. */
module SizePolicy {
  import opened Words

  /** Slots per group. */
  const N: nat := 15

  /** The largest number of groups whose size index is a valid shift. */
  const MAX_GROUPS: nat := 0x8000_0000_0000_0000

  lemma {:induction false} BitWidthMonotone(m: nat, n: nat)
    requires m <= n
    ensures BitWidth(m) <= BitWidth(n)
  {
    if m == 0 {
    } else {
      BitWidthMonotone(m / 2, n / 2);
    }
  }

  lemma {:induction false} BitWidthOfMask(k: nat)
    ensures BitWidth(Pow2(k) - 1) == k
  {
    if k == 0 {
    } else {
      assert (Pow2(k) - 1) / 2 == Pow2(k - 1) - 1;
      BitWidthOfMask(k - 1);
    }
  }

  /** Number of bits that select a group. */
  function SizeBits(n: nat): (b: nat)
    ensures b >= 1
  {
    if n <= 2 then 1 else BitWidth(n - 1)
  }

  function SizeIndex(n: nat): int { 64 - SizeBits(n) }

  function Size(sizeIndex: int): nat
    requires sizeIndex <= 64
  {
    Pow2(64 - sizeIndex)
  }

  const MIN_SIZE: nat := 2

  function Position(hash: Word, sizeIndex: nat): nat { ShiftRight(hash, sizeIndex) }

  /** size(size_index(n)) is the least permissible group count that is at least n. */
  lemma SizeIsLeastPower(n: nat)
    ensures SizeIndex(n) <= 63
    ensures Size(SizeIndex(n)) >= n && Size(SizeIndex(n)) >= MIN_SIZE
    ensures forall b: nat {:trigger Pow2(b)} :: b >= 1 && Pow2(b) >= n ==> Size(SizeIndex(n)) <= Pow2(b)
  {
    BitWidthBounds(if n == 0 then 0 else n - 1);
    Pow2Monotone(1, SizeBits(n)) by {
      assert SizeBits(n) >= 1;
    }
    forall b: nat {:trigger Pow2(b)} | b >= 1 && Pow2(b) >= n ensures Size(SizeIndex(n)) <= Pow2(b) {
      if SizeBits(n) > b {
        Pow2Monotone(b, SizeBits(n) - 1);
      }
      if SizeBits(n) <= b {
        Pow2Monotone(SizeBits(n), b);
      }
    }
  }

  /** A request of at most MAX_GROUPS groups gets a size index in [1, 63]. */
  lemma SizeIndexInRange(n: nat)
    requires n <= MAX_GROUPS
    ensures 1 <= SizeIndex(n) <= 63
  {
    BitWidthMonotone(if n == 0 then 0 else n - 1, MAX_GROUPS - 1);
    BitWidthOfMask(63);
    Pow2Word();
  }

  /** Every hash word is mapped to an existing group, which its high bits select. */
  lemma PositionInRange(hash: Word, sizeIndex: nat)
    requires sizeIndex <= 64
    ensures Position(hash, sizeIndex) < Size(sizeIndex)
    ensures Position(hash, sizeIndex) == hash / Pow2(sizeIndex)
  {
    Pow2Word();
    ShiftIsDivision(hash, sizeIndex);
    ShiftBound(hash, 64 - sizeIndex, sizeIndex);
  }

  /** Group count, as a number of index bits, for a requested element capacity. */
  function SizeIndexFor(n: nat): int { SizeIndex(n / N + 1) }

  /** Element capacity of the arrays allocated for a request of n elements. */
  function CapacityFor(n: nat): int { Size(SizeIndexFor(n)) * N - 1 }

  /** The capacity allocated for n is at least n, is at least 29, and is the least of the form 15 * 2^b - 1 with
      that. */
  lemma CapacityForCovers(n: nat)
    ensures SizeIndexFor(n) <= 63
    ensures CapacityFor(n) >= n && CapacityFor(n) >= 2 * N - 1
    ensures forall b: nat {:trigger Pow2(b)} :: b >= 1 && Pow2(b) * N - 1 >= n ==> CapacityFor(n) <= Pow2(b) * N - 1
  {
    SizeIsLeastPower(n / N + 1);
  }

  /** The capacities that arrays can have: 29, 59, 119 and so on. */
  ghost predicate IsCapacity(c: nat) {
    exists b: nat {:trigger Pow2(b)} :: b >= 1 && c == 15 * Pow2(b) - 1
  }

  /** The least of these that is at least n. */
  lemma CapacityForLeast(n: nat)
    ensures CapacityFor(n) >= n && IsCapacity(CapacityFor(n))
    ensures forall c: nat | IsCapacity(c) && c >= n :: CapacityFor(n) <= c
  {
    CapacityForCovers(n);
    assert CapacityFor(n) == 15 * Pow2(64 - SizeIndexFor(n)) - 1;
  }

  /** Between a capacity and twice it, plus one, there is no other. */
  lemma NextCapacity(c: nat, d: nat)
    requires IsCapacity(c) && IsCapacity(d)
    ensures c >= 29 && IsCapacity(2 * c + 1)
    ensures d > c ==> d >= 2 * c + 1
  {
    var b: nat :| b >= 1 && c == 15 * Pow2(b) - 1;
    var b': nat :| b' >= 1 && d == 15 * Pow2(b') - 1;
    Pow2Monotone(1, b);
    Pow2Double(b);
    if b < b' {
      Pow2Monotone(b, b');
    } else {
      Pow2Monotone(b', b);
    }
    assert Pow2(1) == 2;
    assert 2 * c + 1 == 15 * Pow2(b + 1) - 1;
  }

  /** Asking for exactly an allocated capacity allocates that capacity. */
  lemma CapacityForIdempotent(n: nat)
    ensures CapacityFor(n) >= 0 && CapacityFor(CapacityFor(n)) == CapacityFor(n)
  {
    CapacityForCovers(n);
    CapacityForCovers(CapacityFor(n));
    assert CapacityFor(n) == Pow2(64 - SizeIndexFor(n)) * N - 1;
  }

  /** Capacities requested within b index bits stay within b index bits. */
  lemma CapacityForBound(n: nat, b: nat)
    requires b >= 1 && n <= Pow2(b) * N - 1
    ensures CapacityFor(n) <= Pow2(b) * N - 1
  {
    CapacityForCovers(n);
  }
}

/** Index mapping of the perfect hash table: the high bits of a 64-bit word
    select one of 2^bits slots, and a bucket's offset shifts all its keys
    cyclically by the same amount. */
module FphIndex {
  import opened Words

  function RoundUpLog2(x: nat): nat {
    if x <= 1 then x else BitWidth(x - 1)
  }

  function Ceil2(x: nat): nat { Pow2(RoundUpLog2(x)) }

  /** Ceil2 is the least power of two not below its argument, except that it maps 1 to 2. */
  lemma Ceil2IsLeast(x: nat)
    ensures x <= Ceil2(x)
    ensures Ceil2(1) == 2
    ensures forall b: nat {:trigger Pow2(b)} :: x != 1 && x <= Pow2(b) ==> Ceil2(x) <= Pow2(b)
  {
    BitWidthBounds(if x == 0 then 0 else x - 1);
    assert Pow2(1) == 2;
    forall b: nat {:trigger Pow2(b)} | x != 1 && x <= Pow2(b) ensures Ceil2(x) <= Pow2(b) {
      if x >= 2 && RoundUpLog2(x) > b {
        Pow2Monotone(b, RoundUpLog2(x) - 1);
      }
      if RoundUpLog2(x) <= b {
        Pow2Monotone(RoundUpLog2(x), b);
      }
    }
  }

  /** HighBitsIndexMapPolicy::MapToIndex for 2^bits slots. */
  function MapToIndex(hash: Word, bits: nat): (i: nat)
    requires bits <= 64
    ensures i < Pow2(bits)
  {
    Pow2Word();
    ShiftBound(hash, bits, 64 - bits);
    ShiftRight(hash, 64 - bits)
  }

  /** ReverseMap: a shift left that wraps in 64 bits. */
  function ReverseMap(index: nat, bits: nat): Word
    requires bits <= 64
  {
    (index * Pow2(64 - bits)) % WORD
  }

  function AddWord(x: Word, y: Word): Word { (x + y) % WORD }

  /** (base + offset) modulo the number of slots, for operands below it. */
  function Wrap(x: nat, m: nat): nat {
    if x < m then x else x - m
  }

  /** Adding a mapped-back offset to a hash word shifts its slot cyclically by the offset. */
  lemma OffsetIsCyclicShift(hash: Word, offset: nat, bits: nat)
    requires bits <= 64 && offset < Pow2(bits)
    ensures MapToIndex(AddWord(hash, ReverseMap(offset, bits)), bits)
              == Wrap(MapToIndex(hash, bits) + offset, Pow2(bits))
  {
    hide Pow2, ShiftRight;
    var p := SplitWord(bits);
    ShiftBounds(hash, 64 - bits);
    var a := MapToIndex(hash, bits);
    var r := hash - a * p;
    assert r < p && hash == a * p + r;
    CyclicSum(a, offset, Pow2(bits), p, r, WORD);
    assert AddWord(hash, ReverseMap(offset, bits)) == Wrap(a + offset, Pow2(bits)) * p + r;
    ShiftUnique(AddWord(hash, ReverseMap(offset, bits)), 64 - bits, Wrap(a + offset, Pow2(bits)), r);
  }

  lemma SplitWord(bits: nat) returns (p: nat)
    requires bits <= 64
    ensures p == Pow2(64 - bits) && Pow2(bits) * p == WORD
  {
    p := Pow2(64 - bits);
    Pow2Word();
    Pow2Add(bits, 64 - bits);
  }

  lemma CyclicSum(a: nat, b: nat, m: nat, p: nat, r: nat, w: nat)
    requires a < m && b < m && r < p && w == m * p && w >= 1
    ensures (a * p + r + (b * p) % w) % w == Wrap(a + b, m) * p + r
  {
    SmallProduct(b, m, p);
    SmallProduct(Wrap(a + b, m), m, p);
    ModUnique(b * p, m * p, 0, b * p);
    assert (a + b) * p == a * p + b * p;
    assert (a + b - m) * p == (a + b) * p - m * p;
    ModUnique(a * p + r + b * p, m * p, if a + b < m then 0 else 1, Wrap(a + b, m) * p + r);
  }

  lemma SmallProduct(x: nat, m: nat, p: nat)
    requires x < m && p >= 1
    ensures 0 <= x * p <= m * p - p
  {
    assert m * p - p == (m - 1) * p;
    assert (m - 1 - x) * p == (m - 1) * p - x * p;
    assert (m - 1 - x) * p >= 0;
  }

  lemma ShiftUnique(x: nat, k: nat, q: nat, r: nat)
    requires x == q * Pow2(k) + r && r < Pow2(k)
    ensures ShiftRight(x, k) == q
  {
    ShiftIsDivision(x, k);
    ModUnique(x, Pow2(k), q, r);
  }
}

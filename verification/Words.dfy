/** Powers of two, 64-bit words as bounded naturals, and the bit operations on
    them that the tables use (masking with a power of two minus one). */
module Words {

  const WORD: nat := 0x1_0000_0000_0000_0000

  type Word = w: nat | w < WORD

  function Pow2(n: nat): (p: nat)
    ensures p >= 1
  {
    if n == 0 then 1 else 2 * Pow2(n - 1)
  }

  lemma {:induction false} Pow2Add(a: nat, b: nat)
    ensures Pow2(a + b) == Pow2(a) * Pow2(b)
  {
    if b == 0 {
    } else {
      Pow2Add(a, b - 1);
      var x, y := Pow2(a), Pow2(b - 1);
      assert 2 * (x * y) == x * (2 * y);
    }
  }

  lemma {:induction false} Pow2Monotone(a: nat, b: nat)
    requires a <= b
    ensures Pow2(a) <= Pow2(b)
    ensures a < b ==> 2 * Pow2(a) <= Pow2(b)
  {
    if a >= b {
    } else {
      Pow2Monotone(a, b - 1);
    }
  }

  lemma Pow2Double(n: nat)
    ensures Pow2(n + 1) == 2 * Pow2(n)
  {
  }

  /** The word size is two to the power 64. */
  lemma Pow2Word()
    ensures Pow2(64) == WORD
    ensures Pow2(32) == 0x1_0000_0000
  {
    assert Pow2(8) == 256;
    assert Pow2(16) == 65536 by { Pow2Add(8, 8); }
    assert Pow2(32) == 0x1_0000_0000 by { Pow2Add(16, 16); }
    Pow2Add(32, 32);
  }

  /** The number of bits needed to write n. */
  function BitWidth(n: nat): nat {
    if n == 0 then 0 else 1 + BitWidth(n / 2)
  }

  lemma {:induction false} BitWidthBounds(n: nat)
    ensures n < Pow2(BitWidth(n))
    ensures n > 0 ==> BitWidth(n) >= 1 && Pow2(BitWidth(n) - 1) <= n
  {
    if n == 0 {
    } else {
      BitWidthBounds(n / 2);
    }
  }

  /** x >> k. */
  function ShiftRight(x: nat, k: nat): nat {
    if k == 0 then x else ShiftRight(x / 2, k - 1)
  }

  lemma MultiplyDouble(q: int, p: int)
    ensures q * (2 * p) == 2 * (q * p)
  {
  }

  lemma {:induction false} ShiftBounds(x: nat, k: nat)
    ensures ShiftRight(x, k) * Pow2(k) <= x < ShiftRight(x, k) * Pow2(k) + Pow2(k)
  {
    if k == 0 {
    } else {
      ShiftBounds(x / 2, k - 1);
      MultiplyDouble(ShiftRight(x, k), Pow2(k - 1));
    }
  }

  /** A shift right by k is a division by 2^k. */
  lemma ShiftIsDivision(x: nat, k: nat)
    ensures ShiftRight(x, k) == x / Pow2(k)
  {
    ShiftBounds(x, k);
    ModUnique(x, Pow2(k), ShiftRight(x, k), x - ShiftRight(x, k) * Pow2(k));
  }

  lemma {:induction false} ShiftBound(x: nat, a: nat, k: nat)
    requires x < Pow2(a + k)
    ensures ShiftRight(x, k) < Pow2(a)
  {
    if k == 0 {
    } else {
      ShiftBound(x / 2, a, k - 1);
    }
  }

  /** Bitwise conjunction of two naturals. */
  function BitAnd(x: nat, y: nat): nat {
    if x == 0 || y == 0 then 0
    else (if x % 2 == 1 && y % 2 == 1 then 1 else 0) + 2 * BitAnd(x / 2, y / 2)
  }

  /** Masking with 2^k - 1 keeps exactly the remainder modulo 2^k. */
  lemma {:induction false} MaskIsMod(x: nat, k: nat)
    ensures BitAnd(x, Pow2(k) - 1) == x % Pow2(k)
  {
    if k == 0 || x == 0 {
    } else {
      MaskIsMod(x / 2, k - 1);
      var p := Pow2(k - 1);
      assert (Pow2(k) - 1) / 2 == p - 1 && (Pow2(k) - 1) % 2 == 1;
      HalfMod(x, p);
    }
  }

  lemma HalfMod(x: nat, p: nat)
    requires p >= 1
    ensures x % (2 * p) == x % 2 + 2 * ((x / 2) % p)
  {
    var q, r := (x / 2) / p, (x / 2) % p;
    assert x == 2 * (q * p + r) + x % 2;
    assert x == q * (2 * p) + (2 * r + x % 2);
    ModUnique(x, 2 * p, q, 2 * r + x % 2);
  }

  lemma MultipleBound(k: int, d: int)
    requires d >= 1
    ensures k >= 1 ==> k * d >= d
    ensures k <= -1 ==> k * d <= -d
  {
    if k >= 1 {
      assert k * d == (k - 1) * d + d;
    } else if k <= -1 {
      assert k * d == (k + 1) * d - d;
    }
  }

  /** Quotient and remainder are determined by x == q * d + r with 0 <= r < d. */
  lemma ModUnique(x: int, d: nat, q: int, r: int)
    requires d >= 1 && 0 <= r < d && x == q * d + r
    ensures x / d == q && x % d == r
  {
    var q', r' := x / d, x % d;
    assert x == q' * d + r';
    assert (q - q') * d == r' - r;
    MultipleBound(q - q', d);
  }

  lemma ModAddMultiple(x: int, d: nat, m: int)
    requires d >= 1
    ensures (x + m * d) % d == x % d
  {
    ModUnique(x + m * d, d, x / d + m, x % d);
  }

  /** Remainders absorb inner remainders. */
  lemma ModAddMod(x: int, y: int, d: nat)
    requires d >= 1
    ensures (x % d + y) % d == (x + y) % d
  {
    assert x == (x / d) * d + x % d;
    ModAddMultiple(x % d + y, d, x / d);
  }
}

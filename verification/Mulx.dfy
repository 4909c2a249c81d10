/** The mixing multiplication of the hash functions: the portable version, in four
    32-bit limbs, equals the low half of the full product xor its high half. */
module Mulx {
  import opened Words

  const HALF: nat := 0x1_0000_0000

  function BitXor(x: nat, y: nat): nat
    decreases x + y
  {
    if x == 0 && y == 0 then 0
    else (if x % 2 != y % 2 then 1 else 0) + 2 * BitXor(x / 2, y / 2)
  }

  /** 64-bit addition, multiplication and left shift by half a word, each wrapping around. */
  function Add(x: Word, y: Word): Word { (x + y) % WORD }
  function Mul(x: Word, y: Word): Word { (x * y) % WORD }
  function ShiftLeftHalf(x: Word): Word { (x * HALF) % WORD }

  /** The two words the fallback computes from the limbs, before it combines them. */
  function Halves(x: Word, y: Word): (r: (Word, Word)) {
    var x1, x2 := x % HALF, x / HALF;
    var y1, y2 := y % HALF, y / HALF;
    Sums(Mul(x2, y2), Mul(x1, y2), Mul(x2, y1), Mul(x1, y1))
  }

  /** Combines the four limb products: r3 the high one, r2a and r2b the middle ones, r1 the low one. */
  function Sums(r3: Word, r2a: Word, r2b: Word, r1: Word): (Word, Word) {
    var r3' := Add(Add(r3, r2a / HALF), r2b / HALF);
    var r2 := Add(Add(r1 / HALF, r2a % HALF), r2b % HALF);
    (Add(ShiftLeftHalf(r2), r1 % HALF), Add(r3', r2 / HALF))
  }

  function Mulx64(x: Word, y: Word): nat {
    var r := Halves(x, y);
    BitXor(r.0, r.1)
  }

  lemma TimesMonotone(a: nat, b: nat, c: nat)
    requires a <= b
    ensures a * c <= b * c
  {
    assert (b - a) * c >= 0;
  }

  lemma LimbProduct(x: nat, y: nat)
    requires x < HALF && y < HALF
    ensures x * y <= (HALF - 1) * (HALF - 1) && Mul(x, y) == x * y
  {
    var most := HALF - 1;
    assert x * y <= most * y by { TimesMonotone(x, most, y); }
    assert y * most <= most * most by { TimesMonotone(y, most, most); }
    SmallMod(x * y);
  }

  lemma SmallMod(z: nat)
    requires z < WORD
    ensures z % WORD == z
  {
  }

  lemma AddExact(x: Word, y: Word)
    requires x + y < WORD
    ensures Add(x, y) == x + y
  {
  }

  lemma ShiftLeavesLowHalf(x: Word)
    ensures ShiftLeftHalf(x) <= WORD - HALF
  {
    assert x * HALF == x / HALF * WORD + x % HALF * HALF;
    ModUnique(x * HALF, WORD, x / HALF, x % HALF * HALF);
  }

  /** A product of two words is the sum of its four limb products at their places. */
  lemma FourProducts(x1: nat, x2: nat, y1: nat, y2: nat)
    ensures (x2 * HALF + x1) * (y2 * HALF + y1) == x2 * y2 * WORD + (x1 * y2 + x2 * y1) * HALF + x1 * y1
  {
    var h := HALF;
    assert (x2 * h + x1) * (y2 * h + y1) == (x2 * y2) * (h * h) + (x1 * y2) * h + (x2 * y1) * h + x1 * y1;
    assert h * h == WORD;
  }

  /** No carry is lost: the pair is the low and the high word of the product, and the high word does not overflow. */
  lemma HalvesAreProduct(x: Word, y: Word)
    ensures Halves(x, y).0 == x * y % WORD && Halves(x, y).1 == x * y / WORD
  {
    var x1, x2 := x % HALF, x / HALF;
    var y1, y2 := y % HALF, y / HALF;
    LimbProduct(x1, y1);
    LimbProduct(x1, y2);
    LimbProduct(x2, y1);
    LimbProduct(x2, y2);
    assert x * y == x2 * y2 * WORD + (x1 * y2 + x2 * y1) * HALF + x1 * y1 by {
      FourProducts(x1, x2, y1, y2);
    }
    ProductBound(x, y);
    Carries(x2 * y2, x1 * y2, x2 * y1, x1 * y1, x * y);
    NoWrap(x2 * y2, x1 * y2, x2 * y1, x1 * y1);
  }

  /** The additions of the fallback on the four limb products, as exact sums. */
  lemma NoWrap(p22: Word, p12: Word, p21: Word, p11: Word)
    requires p22 <= (HALF - 1) * (HALF - 1) && p12 <= (HALF - 1) * (HALF - 1)
    requires p21 <= (HALF - 1) * (HALF - 1) && p11 <= (HALF - 1) * (HALF - 1)
    requires p22 + p12 / HALF + p21 / HALF + (p11 / HALF + p12 % HALF + p21 % HALF) / HALF < WORD
    ensures Sums(p22, p12, p21, p11)
         == var r2 := p11 / HALF + p12 % HALF + p21 % HALF;
            ((r2 * HALF) % WORD + p11 % HALF, p22 + p12 / HALF + p21 / HALF + r2 / HALF)
  {
    hide Add;
    var a, b, c := p12 / HALF, p21 / HALF, p11 / HALF;
    AddExact(p22, a);
    AddExact(p22 + a, b);
    AddExact(c, p12 % HALF);
    AddExact(c + p12 % HALF, p21 % HALF);
    var r2 := c + p12 % HALF + p21 % HALF;
    AddExact(p22 + a + b, r2 / HALF);
    ShiftLeavesLowHalf(r2);
    AddExact(ShiftLeftHalf(r2), p11 % HALF);
  }

  lemma ProductBound(x: nat, y: nat)
    requires x < WORD && y < WORD
    ensures x * y < WORD * WORD
  {
    assert x * y <= x * WORD;
    assert x == 0 || x * WORD <= (WORD - 1) * WORD;
  }

  /** The carries of the limb products, as linear arithmetic. */
  lemma Carries(p22: nat, p12: nat, p21: nat, p11: nat, xy: nat)
    requires p22 <= (HALF - 1) * (HALF - 1) && p12 <= (HALF - 1) * (HALF - 1)
    requires p21 <= (HALF - 1) * (HALF - 1) && p11 <= (HALF - 1) * (HALF - 1)
    requires xy == p22 * WORD + (p12 + p21) * HALF + p11
    ensures var r2 := p11 / HALF + p12 % HALF + p21 % HALF;
            && xy % WORD == (r2 * HALF) % WORD + p11 % HALF
            && xy / WORD == p22 + p12 / HALF + p21 / HALF + r2 / HALF
  {
  }

  /** The fallback is the low word of the full product xor its high word. */
  lemma Mulx64IsXor(x: Word, y: Word)
    ensures Mulx64(x, y) == BitXor(x * y % WORD, x * y / WORD)
  {
    HalvesAreProduct(x, y);
  }
}

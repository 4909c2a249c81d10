/** The quadratic prober: triangular-number steps over a power-of-two range. */
module Prober {
  import opened FiniteSets
  import opened Words

  /** The i-th triangular number, the sum of the first i step lengths. */
  function Tri(i: nat): nat {
    if i == 0 then 0 else Tri(i - 1) + i
  }

  lemma {:induction false} TriClosedForm(i: nat)
    ensures 2 * Tri(i) == i * (i + 1)
  {
    if i == 0 {
    } else {
      TriClosedForm(i - 1);
      assert i * (i + 1) == (i - 1) * i + 2 * i;
    }
  }

  /** Position after i steps from pos0: pos0 plus the i-th triangular number, modulo the range size. */
  function ProbePos(pos0: nat, i: nat, size: nat): (p: nat)
    requires size >= 1
    ensures p < size
  {
    (pos0 + Tri(i)) % size
  }

  class Pow2QuadraticProber {
    var pos: nat
    var step: nat

    constructor (pos0: nat)
      ensures pos == pos0 && step == 0
    {
      pos, step := pos0, 0;
    }

    /** One step; mask is the range size 2^k minus one. Says whether the range is still not exhausted. */
    method Next(mask: nat, ghost k: nat) returns (more: bool)
      requires mask + 1 == Pow2(k)
      modifies this
      ensures step == old(step) + 1
      ensures pos == (old(pos) + step) % (mask + 1)
      ensures more <==> step <= mask
    {
      step := step + 1;
      MaskIsMod(pos + step, k);
      pos := BitAnd(pos + step, mask);
      more := step <= mask;
    }
  }

  lemma ProbeStart(pos0: nat, size: nat)
    requires pos0 < size
    ensures ProbePos(pos0, 0, size) == pos0
  {
    ModUnique(pos0, size, 0, pos0);
  }

  /** The stepwise update computes the closed form. */
  lemma ProbeStep(pos0: nat, i: nat, size: nat)
    requires size >= 1
    ensures (ProbePos(pos0, i, size) + (i + 1)) % size == ProbePos(pos0, i + 1, size)
  {
    ModAddMod(pos0 + Tri(i), i + 1, size);
  }

  lemma ParityOfProduct(a: nat, b: nat)
    requires a % 2 == 1
    ensures (a * b) % 2 == b % 2
    ensures b % 2 == 0 ==> a * b == 2 * (a * (b / 2))
  {
    assert a * b == 2 * ((a / 2) * b) + b;
    if b % 2 == 0 {
      assert b == 2 * (b / 2);
      assert a * (2 * (b / 2)) == 2 * (a * (b / 2));
    }
  }

  /** An odd factor can be cancelled from a multiple of a power of two. */
  lemma {:induction false} CancelOdd(a: nat, b: nat, q: nat, m: nat) returns (c: nat)
    requires a % 2 == 1 && a * b == q * Pow2(m)
    ensures b == c * Pow2(m)
  {
    if m == 0 {
      c := b;
    } else {
      var p := Pow2(m - 1);
      assert q * (2 * p) == 2 * (q * p);
      ParityOfProduct(a, b);
      c := CancelOdd(a, b / 2, q, m - 1);
      assert 2 * (c * p) == c * (2 * p);
    }
  }

  /** The gap between two triangular numbers, doubled, is a product of factors of opposite parity. */
  lemma TriangularGap(i: nat, j: nat)
    requires i < j
    ensures (j - i) * (i + j + 1) == 2 * (Tri(j) - Tri(i))
    ensures (j - i) % 2 == 1 || (i + j + 1) % 2 == 1
  {
    TriClosedForm(i);
    TriClosedForm(j);
    assert (j - i) * (i + j + 1) == j * (j + 1) - i * (i + 1);
    assert i + j + 1 == (j - i) + 2 * i + 1;
  }

  lemma {:induction false} TriIncreasing(i: nat, j: nat)
    requires i <= j
    ensures Tri(i) <= Tri(j)
  {
    if i >= j {
    } else {
      TriIncreasing(i, j - 1);
    }
  }

  /** Two different steps below the range size never meet. */
  lemma ProbeInjective(pos0: nat, i: nat, j: nat, n: nat)
    requires i < j < Pow2(n)
    ensures ProbePos(pos0, i, Pow2(n)) != ProbePos(pos0, j, Pow2(n))
  {
    var size := Pow2(n);
    if ProbePos(pos0, i, size) == ProbePos(pos0, j, size) {
      TriIncreasing(i, j);
      var q := SameRemainder(pos0 + Tri(i), pos0 + Tri(j), size);
      TriangularGap(i, j);
      MultiplyDouble(q, size);
      MultipleOfPowerTooSmall(j - i, i + j + 1, q, n + 1);
    }
  }

  lemma SameRemainder(x: nat, y: nat, d: nat) returns (q: nat)
    requires d >= 1 && x <= y && x % d == y % d
    ensures y - x == q * d
  {
    var q' := y / d - x / d;
    assert x == (x / d) * d + x % d && y == (y / d) * d + y % d;
    assert y - x == q' * d;
    MultipleBound(q', d);
    q := q';
  }

  /** Of two positive factors below 2^m, one of them odd, the product is no multiple of 2^m. */
  lemma MultipleOfPowerTooSmall(a: nat, b: nat, q: nat, m: nat)
    requires 0 < a < Pow2(m) && 0 < b < Pow2(m)
    requires a % 2 == 1 || b % 2 == 1
    ensures a * b != q * Pow2(m)
  {
    if a * b == q * Pow2(m) {
      var c;
      if a % 2 == 1 {
        c := CancelOdd(a, b, q, m);
      } else {
        c := CancelOdd(b, a, q, m);
      }
      MultipleBound(c, Pow2(m));
    }
  }

  /** The set of positions visited by the first i probes. */
  ghost function Visited(pos0: nat, i: nat, size: nat): (s: set<nat>)
    requires size >= 1
  {
    set j | 0 <= j < i :: ProbePos(pos0, j, size)
  }

  lemma {:induction false} VisitedCount(pos0: nat, i: nat, n: nat)
    requires i <= Pow2(n)
    ensures |Visited(pos0, i, Pow2(n))| == i
  {
    var size := Pow2(n);
    if i == 0 {
      assert Visited(pos0, 0, size) == {};
    } else {
      VisitedCount(pos0, i - 1, n);
      var last := ProbePos(pos0, i - 1, size);
      forall j | 0 <= j < i - 1 ensures ProbePos(pos0, j, size) != last {
        ProbeInjective(pos0, j, i - 1, n);
      }
      assert Visited(pos0, i, size) == Visited(pos0, i - 1, size) + {last};
    }
  }

  /** Probing reaches every position of a power-of-two range within size probes. */
  lemma ProbeReachesAll(pos0: nat, g: nat, n: nat) returns (i: nat)
    requires g < Pow2(n)
    ensures i < Pow2(n) && ProbePos(pos0, i, Pow2(n)) == g
  {
    var size := Pow2(n);
    VisitedCount(pos0, size, n);
    SubsetSameSize(Visited(pos0, size, size), Below(size));
    assert g in Visited(pos0, size, size);
    i :| 0 <= i < size && ProbePos(pos0, i, size) == g;
  }

  ghost predicate IsProbed(pos0: nat, g: nat, size: nat)
    requires size >= 1
  {
    exists i :: 0 <= i < size && ProbePos(pos0, i, size) == g
  }

  /** The first size probes are a permutation of [0, size): every position is met at exactly one step. */
  lemma ProbePermutation(pos0: nat, n: nat)
    ensures forall g | 0 <= g < Pow2(n) :: IsProbed(pos0, g, Pow2(n))
    ensures forall i, j | 0 <= i < j < Pow2(n) :: ProbePos(pos0, i, Pow2(n)) != ProbePos(pos0, j, Pow2(n))
  {
    forall g | 0 <= g < Pow2(n) ensures IsProbed(pos0, g, Pow2(n)) {
      var i := ProbeReachesAll(pos0, g, n);
    }
    forall i, j | 0 <= i < j < Pow2(n) ensures ProbePos(pos0, i, Pow2(n)) != ProbePos(pos0, j, Pow2(n)) {
      ProbeInjective(pos0, i, j, n);
    }
  }
}

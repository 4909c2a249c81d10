/** The hash of a byte range, 64-bit: the version for random access, which reads
    blocks of eight bytes and its tail with overlapping reads, and the version
    that reads one byte at a time, compute the same function. The mixing
    multiplication is any function of two words. */
module HashRange {

  const Q: bv64 := 0x9e3779b97f4a7c15
  const K: bv64 := 0xdf442d22ce4859b9

  type Multiply = (bv64, bv64) -> bv64

  function Or(x: bv64, y: bv64): bv64 { x | y }
  function Xor(x: bv64, y: bv64): bv64 { x ^ y }
  function Step(w: bv64): bv64 { w + Q }
  function Mixed(mulx: Multiply, v: bv64, w: bv64): bv64 { mulx(v + w, K) }

  /** Byte b in place j of a word. */
  function Place(b: bv8, j: nat): bv64
    requires j < 8
  {
    Up(b as bv64, j)
  }

  /** A word moved up by j bytes. */
  function Up(x: bv64, j: nat): bv64
    requires j < 8
  {
    if j == 0 then x else if j == 1 then x << 8 else if j == 2 then x << 16 else if j == 3 then x << 24
    else if j == 4 then x << 32 else if j == 5 then x << 40 else if j == 6 then x << 48 else x << 56
  }

  /** Bytes lo up to hi, each in its own place of a little-endian word. */
  function Bytes(bs: seq<bv8>, lo: nat, hi: nat): bv64
    requires lo <= hi <= |bs| && hi <= 8
    decreases hi
  {
    if lo == hi then 0 else Or(Bytes(bs, lo, hi - 1), Place(bs[hi - 1], hi - 1))
  }

  /** Up to eight bytes as a little-endian word. */
  function LittleEndian(bs: seq<bv8>): bv64
    requires |bs| <= 8
  {
    Bytes(bs, 0, |bs|)
  }

  /** A byte count as a word, wrapping around at 2^64. */
  function Count(n: nat): bv64 {
    if n == 0 then 0 else Count(n - 1) + 1
  }

  /** Mixes blocks of eight bytes and then the remaining zero to seven into the pair (w, h). */
  function Absorb(mulx: Multiply, w: bv64, h: bv64, bs: seq<bv8>): (bv64, bv64)
    decreases |bs|
  {
    if |bs| < 8 then (Step(w), Xor(h, Mixed(mulx, LittleEndian(bs), Step(w))))
    else Absorb(mulx, Step(w), Xor(h, Mixed(mulx, LittleEndian(bs[..8]), Step(w))), bs[8..])
  }

  /** The hash of a byte sequence: its absorbed bytes with its length. */
  function Hash(mulx: Multiply, seed: bv64, bs: seq<bv8>): bv64 {
    var w := mulx(Step(seed), K);
    var r := Absorb(mulx, w, w, bs);
    Mixed(mulx, Xor(r.1, Count(|bs|)), r.0)
  }

  /** The i-th block of eight bytes; the last one has what remains, zero to seven bytes. */
  function Block(bs: seq<bv8>, i: nat): (b: seq<bv8>)
    requires 8 * i <= |bs|
    ensures |b| <= 8
  {
    if 8 * i + 8 <= |bs| then bs[8 * i..8 * i + 8] else bs[8 * i..]
  }

  /** w moved on n times by q. */
  function Moved(w: bv64, n: nat): bv64 {
    if n == 0 then w else Moved(w, n - 1) + 0x9e3779b97f4a7c15
  }

  /** The mixed block i, with w0 moved on i + 1 times. */
  function MixedBlock(mulx: Multiply, w0: bv64, bs: seq<bv8>, i: nat): bv64
    requires 8 * i <= |bs|
  {
    Mixed(mulx, LittleEndian(Block(bs, i)), Moved(w0, i + 1))
  }

  /** The xor of the first n mixed blocks. */
  function MixedBlocks(mulx: Multiply, w0: bv64, bs: seq<bv8>, n: nat): bv64
    requires 8 * n <= |bs| + 8
  {
    if n == 0 then 0 else Xor(MixedBlocks(mulx, w0, bs, n - 1), MixedBlock(mulx, w0, bs, n - 1))
  }

  lemma MoveOn(w: bv64, n: nat)
    ensures Moved(w, 0) == w
    ensures Step(Moved(w, n)) == Moved(w, n + 1)
  {
  }

  lemma XorNone(h: bv64)
    ensures Xor(h, 0) == h
  {
  }

  /** Absorbing block after block is the xor of all mixed blocks. */
  lemma {:induction false} AbsorbsBlocks(mulx: Multiply, w0: bv64, h: bv64, bs: seq<bv8>, i: nat)
    requires 8 * i <= |bs|
    ensures Absorb(mulx, Moved(w0, i), Xor(h, MixedBlocks(mulx, w0, bs, i)), bs[8 * i..])
         == (Moved(w0, |bs| / 8 + 1), Xor(h, MixedBlocks(mulx, w0, bs, |bs| / 8 + 1)))
    decreases |bs| - 8 * i
  {
    hide Xor, Step, Mixed, Moved, LittleEndian;
    var rest := bs[8 * i..];
    MoveOn(w0, i);
    XorAssociates(h, MixedBlocks(mulx, w0, bs, i), MixedBlock(mulx, w0, bs, i));
    if |rest| < 8 {
      assert |bs| / 8 == i && Block(bs, i) == rest;
    } else {
      assert rest[..8] == Block(bs, i) && rest[8..] == bs[8 * (i + 1)..];
      AbsorbsBlocks(mulx, w0, h, bs, i + 1);
    }
  }

  /** The hash in closed form, from its start value w0: every block and the length enter it once. */
  ghost predicate HashFrom(mulx: Multiply, w0: bv64, bs: seq<bv8>, r: bv64) {
    var h := Xor(Xor(w0, Count(|bs|)), MixedBlocks(mulx, w0, bs, |bs| / 8 + 1));
    r == Mixed(mulx, h, Moved(w0, |bs| / 8 + 1))
  }

  lemma StepIs(w: bv64)
    ensures Step(w) == w + 0x9e3779b97f4a7c15 && K == 0xdf442d22ce4859b9
  {
  }

  lemma MixedIs(mulx: Multiply, v: bv64, w: bv64)
    ensures Mixed(mulx, v, w) == mulx(v + w, 0xdf442d22ce4859b9)
  {
  }

  lemma HashIs(mulx: Multiply, seed: bv64, bs: seq<bv8>)
    ensures HashFrom(mulx, mulx(seed + 0x9e3779b97f4a7c15, 0xdf442d22ce4859b9), bs, Hash(mulx, seed, bs))
  {
    hide Step, HashFrom, Hash;
    StepIs(seed);
    HashOfBlocks(mulx, seed, bs);
  }

  lemma HashOfBlocks(mulx: Multiply, seed: bv64, bs: seq<bv8>)
    ensures HashFrom(mulx, mulx(Step(seed), K), bs, Hash(mulx, seed, bs))
  {
    hide Step, Mixed, Xor, Count, MixedBlock, LittleEndian, Moved, Absorb;
    var w0 := mulx(Step(seed), K);
    assert bs[8 * 0..] == bs;
    MoveOn(w0, 0);
    XorNone(w0);
    AbsorbsBlocks(mulx, w0, w0, bs, 0);
    XorSwap(w0, MixedBlocks(mulx, w0, bs, |bs| / 8 + 1), Count(|bs|));
  }

  lemma XorAssociates(a: bv64, b: bv64, c: bv64)
    ensures Xor(Xor(a, b), c) == Xor(a, Xor(b, c))
  {
    XorOperator(a, b, c);
  }

  lemma XorOperator(a: bv64, b: bv64, c: bv64)
    ensures (a ^ b) ^ c == a ^ (b ^ c)
  {
  }

  lemma XorCommutes(a: bv64, b: bv64)
    ensures Xor(a, b) == Xor(b, a)
  {
  }

  lemma XorSwap(a: bv64, b: bv64, c: bv64)
    ensures Xor(Xor(a, b), c) == Xor(Xor(a, c), b)
  {
    hide Xor;
    XorAssociates(a, b, c);
    XorAssociates(a, c, b);
    XorCommutes(b, c);
  }

  lemma OrZero(a: bv64)
    ensures Or(a, 0) == a == Or(0, a)
  {
  }

  lemma OrAssociates(a: bv64, b: bv64, c: bv64)
    ensures Or(a, Or(b, c)) == Or(Or(a, b), c)
  {
    OrOperator(a, b, c);
  }

  lemma OrOperator(a: bv64, b: bv64, c: bv64)
    ensures a | (b | c) == (a | b) | c
  {
  }

  lemma OrCommutes(a: bv64, b: bv64)
    ensures Or(a, b) == Or(b, a) && Or(a, a) == a
  {
  }

  lemma OrMerges(a: bv64, b: bv64, c: bv64)
    ensures Or(Or(a, c), Or(b, c)) == Or(Or(a, b), c)
  {
    hide Or;
    OrCommutes(b, c);
    OrCommutes(c, c);
    OrAssociates(a, c, c);
    OrAssociates(Or(a, c), c, b);
    OrAssociates(a, b, c);
    OrAssociates(a, c, b);
  }

  lemma XorTells(a: bv64, b: bv64, c: bv64, d: bv64)
    requires Xor(Xor(a, b), d) == Xor(Xor(a, c), d)
    ensures b == c
  {
    XorOperatorTells(a, b, c, d);
  }

  lemma XorOperatorTells(a: bv64, b: bv64, c: bv64, d: bv64)
    requires (a ^ b) ^ d == (a ^ c) ^ d
    ensures b == c
  {
  }

  lemma SumsDiffer(a: bv64, b: bv64, w: bv64)
    requires a != b
    ensures a + w != b + w
  {
  }

  lemma MixedTells(mulx: Multiply, a: bv64, b: bv64, w: bv64)
    requires forall x, y :: mulx(x, K) == mulx(y, K) ==> x == y
    requires Mixed(mulx, a, w) == Mixed(mulx, b, w)
    ensures a == b
  {
    if a != b {
      SumsDiffer(a, b, w);
      SameProduct(mulx, a + w, b + w);
    }
  }

  lemma SameProduct(mulx: Multiply, x: bv64, y: bv64)
    requires forall x, y :: mulx(x, K) == mulx(y, K) ==> x == y
    requires mulx(x, K) == mulx(y, K)
    ensures x == y
  {
  }

  /** Fewer than eight more bytes make another count. */
  lemma CountTells(n: nat, k: nat)
    requires 1 <= k < 8
    ensures Count(n + k) != Count(n)
  {
    CountOn(n, k);
    SmallCount(k);
    SumIsMore(Count(n), Count(k));
  }

  function Plus(a: bv64, b: bv64): bv64 { a + b }

  lemma SumIsMore(a: bv64, b: bv64)
    requires b != 0
    ensures Plus(a, b) != a
  {
  }

  lemma SumNone(a: bv64)
    ensures Plus(a, 0) == a
  {
  }

  lemma SmallCount(k: nat)
    requires 1 <= k < 8
    ensures Count(k) != 0
  {
    assert Count(2) == 2;
    assert Count(4) == 4;
    assert Count(6) == 6;
  }

  lemma CountNext(n: nat)
    ensures Count(0) == 0 && Count(n + 1) == Count(n) + 1
  {
  }

  lemma PlusOneMore(a: bv64, b: bv64)
    ensures Plus(a, b) + 1 == Plus(a, b + 1)
  {
  }

  lemma {:induction false} CountOn(n: nat, k: nat)
    ensures Count(n + k) == Plus(Count(n), Count(k))
  {
    hide Plus, Count;
    if k == 0 {
      CountNext(0);
      SumNone(Count(n));
    } else {
      CountOn(n, k - 1);
      CountNext(n + k - 1);
      CountNext(k - 1);
      PlusOneMore(Count(n), Count(k - 1));
    }
  }

  function Zeros(k: nat): seq<bv8> { seq(k, _ => 0) }

  /** Zero bytes at the end do not change a word. */
  lemma {:induction false} ZerosAddNothing(bs: seq<bv8>, k: nat)
    requires |bs| + k <= 8
    ensures LittleEndian(bs + Zeros(k)) == LittleEndian(bs)
  {
    hide Or, Place;
    if k == 0 {
      assert bs + Zeros(0) == bs;
    } else {
      ZerosAddNothing(bs, k - 1);
      var longer := bs + Zeros(k);
      BytesOfPrefix(longer, bs + Zeros(k - 1), 0, |longer| - 1);
      ZeroPlace(|longer| - 1);
      OrZero(LittleEndian(bs));
    }
  }

  lemma ZeroPlace(j: nat)
    requires j < 8
    ensures Place(0, j) == 0
  {
  }

  /** Zero bytes that do not fill the last block leave all mixed blocks as they were. */
  lemma {:induction false} ZerosKeepBlocks(mulx: Multiply, w0: bv64, bs: seq<bv8>, k: nat, n: nat)
    requires |bs| % 8 + k < 8 && n <= |bs| / 8 + 1
    ensures MixedBlocks(mulx, w0, bs + Zeros(k), n) == MixedBlocks(mulx, w0, bs, n)
  {
    hide Xor, Mixed, LittleEndian, Moved;
    if n == 0 {
    } else {
      ZerosKeepBlocks(mulx, w0, bs, k, n - 1);
      var i := n - 1;
      if i < |bs| / 8 {
        assert Block(bs + Zeros(k), i) == Block(bs, i);
      } else {
        assert Block(bs + Zeros(k), i) == Block(bs, i) + Zeros(k);
        ZerosAddNothing(Block(bs, i), k);
      }
    }
  }

  /** The hash tells ranges apart that differ only in zero bytes at the end of their last block, which is what
      mixing in the length is for, if the multiplication by k loses nothing. */
  lemma HashTellsLength(mulx: Multiply, seed: bv64, bs: seq<bv8>, k: nat)
    requires forall x, y :: mulx(x, K) == mulx(y, K) ==> x == y
    requires 1 <= k && |bs| % 8 + k < 8
    ensures Hash(mulx, seed, bs) != Hash(mulx, seed, bs + Zeros(k))
  {
    hide Xor, Mixed, Step, Count, Moved, MixedBlocks, Hash;
    var n, w0, longer := |bs|, mulx(Step(seed), K), bs + Zeros(k);
    HashOfBlocks(mulx, seed, bs);
    HashOfBlocks(mulx, seed, longer);
    ZerosKeepBlocks(mulx, w0, bs, k, n / 8 + 1);
    var blocks := MixedBlocks(mulx, w0, bs, n / 8 + 1);
    if Hash(mulx, seed, bs) == Hash(mulx, seed, longer) {
      MixedTells(mulx, Xor(Xor(w0, Count(n)), blocks), Xor(Xor(w0, Count(n + k)), blocks), Moved(w0, n / 8 + 1));
      XorTells(w0, Count(n), Count(n + k), blocks);
      CountTells(n, k);
    }
  }

  /** It does not matter when the length is mixed into h. */
  lemma {:induction false} AbsorbXor(mulx: Multiply, w: bv64, h: bv64, c: bv64, bs: seq<bv8>)
    ensures Absorb(mulx, w, Xor(h, c), bs) == (Absorb(mulx, w, h, bs).0, Xor(Absorb(mulx, w, h, bs).1, c))
    decreases |bs|
  {
    hide Xor, Mixed, Step, LittleEndian;
    if |bs| < 8 {
      XorSwap(h, c, Mixed(mulx, LittleEndian(bs), Step(w)));
    } else {
      var m := Mixed(mulx, LittleEndian(bs[..8]), Step(w));
      XorSwap(h, c, m);
      AbsorbXor(mulx, Step(w), Xor(h, m), c, bs[8..]);
    }
  }

  /** Overlapping stretches of bytes join to the stretch they cover. */
  lemma {:induction false} JoinBytes(bs: seq<bv8>, lo: nat, lo': nat, hi: nat, hi': nat)
    requires lo <= lo' <= hi <= hi' <= |bs| && hi' <= 8
    ensures Or(Bytes(bs, lo, hi), Bytes(bs, lo', hi')) == Bytes(bs, lo, hi')
    decreases hi'
  {
    hide Or, Place;
    if lo' == hi' {
      OrZero(Bytes(bs, lo, hi));
    } else if hi < hi' {
      JoinBytes(bs, lo, lo', hi, hi' - 1);
      OrAssociates(Bytes(bs, lo, hi), Bytes(bs, lo', hi' - 1), Place(bs[hi' - 1], hi' - 1));
    } else {
      JoinBytes(bs, lo, lo', hi - 1, hi - 1);
      OrMerges(Bytes(bs, lo, hi - 1), Bytes(bs, lo', hi - 1), Place(bs[hi - 1], hi - 1));
    }
  }

  lemma OneByte(bs: seq<bv8>, i: nat)
    requires i < |bs| && i < 8
    ensures Bytes(bs, i, i + 1) == Place(bs[i], i)
  {
    hide Or, Place;
    OrZero(Place(bs[i], i));
  }

  function Read32(bs: seq<bv8>, p: nat): bv64
    requires p + 4 <= |bs|
  {
    Four(bs[p], bs[p + 1], bs[p + 2], bs[p + 3])
  }

  function Four(b0: bv8, b1: bv8, b2: bv8, b3: bv8): bv64 {
    (b0 as bv64) | ((b1 as bv64) << 8) | ((b2 as bv64) << 16) | ((b3 as bv64) << 24)
  }

  function Read64(bs: seq<bv8>, p: nat): bv64
    requires p + 8 <= |bs|
  {
    Or(Or(Or(Or(Read32(bs, p), Place(bs[p + 4], 4)), Place(bs[p + 5], 5)), Place(bs[p + 6], 6)), Place(bs[p + 7], 7))
  }

  /** The tail of n bytes from p: two reads of four bytes, or three reads of one byte, which may overlap. */
  function ReadTail(bs: seq<bv8>, p: nat, n: nat): bv64
    requires p + n <= |bs| && n < 8
  {
    if n >= 4 then Or(Up(Read32(bs, p + (n - 4)), n - 4), Read32(bs, p))
    else if n >= 1 then
      var x1 := if (n - 1) / 2 % 2 == 1 then 2 else 0;
      var x2 := n / 2;
      Or(Or(Place(bs[p + x1], x1), Place(bs[p + x2], x2)), Place(bs[p], 0))
    else 0
  }

  lemma FourUp0(b0: bv8, b1: bv8, b2: bv8, b3: bv8)
    ensures Up(Four(b0, b1, b2, b3), 0) == Or(Or(Or(Place(b0, 0), Place(b1, 1)), Place(b2, 2)), Place(b3, 3))
  {
  }

  lemma FourUp1(b0: bv8, b1: bv8, b2: bv8, b3: bv8)
    ensures Up(Four(b0, b1, b2, b3), 1) == Or(Or(Or(Place(b0, 1), Place(b1, 2)), Place(b2, 3)), Place(b3, 4))
  {
  }

  lemma FourUp2(b0: bv8, b1: bv8, b2: bv8, b3: bv8)
    ensures Up(Four(b0, b1, b2, b3), 2) == Or(Or(Or(Place(b0, 2), Place(b1, 3)), Place(b2, 4)), Place(b3, 5))
  {
  }

  lemma FourUp3(b0: bv8, b1: bv8, b2: bv8, b3: bv8)
    ensures Up(Four(b0, b1, b2, b3), 3) == Or(Or(Or(Place(b0, 3), Place(b1, 4)), Place(b2, 5)), Place(b3, 6))
  {
  }

  lemma FourUp4(b0: bv8, b1: bv8, b2: bv8, b3: bv8)
    ensures Up(Four(b0, b1, b2, b3), 4) == Or(Or(Or(Place(b0, 4), Place(b1, 5)), Place(b2, 6)), Place(b3, 7))
  {
  }

  /** Four bytes read at a distance and moved up are those bytes in their places. */
  lemma Read32Up(bs: seq<bv8>, p: nat, j: nat)
    requires p + j + 4 <= |bs| && j <= 4
    ensures Up(Read32(bs, p + j), j) == Bytes(bs[p..], j, j + 4)
  {
    hide Or, Up, Place, Four;
    var b0, b1, b2, b3 := bs[p + j], bs[p + j + 1], bs[p + j + 2], bs[p + j + 3];
    if j == 0 { FourUp0(b0, b1, b2, b3); }
    if j == 1 { FourUp1(b0, b1, b2, b3); }
    if j == 2 { FourUp2(b0, b1, b2, b3); }
    if j == 3 { FourUp3(b0, b1, b2, b3); }
    if j == 4 { FourUp4(b0, b1, b2, b3); }
    OneByte(bs[p..], j);
    assert Bytes(bs[p..], j, j + 2) == Or(Bytes(bs[p..], j, j + 1), Place(b1, j + 1));
    assert Bytes(bs[p..], j, j + 3) == Or(Bytes(bs[p..], j, j + 2), Place(b2, j + 2));
    assert Bytes(bs[p..], j, j + 4) == Or(Bytes(bs[p..], j, j + 3), Place(b3, j + 3));
  }

  lemma UpNone(x: bv64)
    ensures Up(x, 0) == x
  {
  }

  /** A block read is the little-endian word of its eight bytes. */
  lemma Read64Is(bs: seq<bv8>, p: nat)
    requires p + 8 <= |bs|
    ensures Read64(bs, p) == LittleEndian(bs[p..p + 8])
  {
    hide Or, Up, Place, Four;
    Read32Up(bs, p, 0);
    UpNone(Read32(bs, p));
    var rest := bs[p..];
    assert Bytes(rest, 0, 5) == Or(Bytes(rest, 0, 4), Place(rest[4], 4));
    assert Bytes(rest, 0, 6) == Or(Bytes(rest, 0, 5), Place(rest[5], 5));
    assert Bytes(rest, 0, 7) == Or(Bytes(rest, 0, 6), Place(rest[6], 6));
    assert Bytes(rest, 0, 8) == Or(Bytes(rest, 0, 7), Place(rest[7], 7));
    BytesOfPrefix(rest, bs[p..p + 8], 0, 8);
  }

  lemma {:induction false} BytesOfPrefix(bs: seq<bv8>, short: seq<bv8>, lo: nat, hi: nat)
    requires lo <= hi <= |short| <= |bs| && hi <= 8 && short == bs[..|short|]
    ensures Bytes(bs, lo, hi) == Bytes(short, lo, hi)
    decreases hi
  {
    hide Or, Place;
    if lo >= hi {
    } else {
      BytesOfPrefix(bs, short, lo, hi - 1);
    }
  }

  /** The overlapping reads of the tail give the little-endian word of its bytes, for every length up to 7. */
  lemma ReadTailIs(bs: seq<bv8>, p: nat, n: nat)
    requires p + n == |bs| && n < 8
    ensures ReadTail(bs, p, n) == LittleEndian(bs[p..])
  {
    hide Or, Up, Place, Four;
    var rest := bs[p..];
    if n >= 4 {
      Read32Up(bs, p, n - 4);
      Read32Up(bs, p, 0);
      UpNone(Read32(bs, p));
      OrCommutes(Bytes(rest, n - 4, n), Bytes(rest, 0, 4));
      JoinBytes(rest, 0, n - 4, 4, n);
    } else if n >= 1 {
      var p0, p1 := Place(rest[0], 0), if n > 1 then Place(rest[1], 1) else 0;
      OneByte(rest, 0);
      if n == 1 {
        OrCommutes(p0, p0);
      } else if n == 2 {
        assert Bytes(rest, 0, 2) == Or(p0, p1);
        OrCommutes(p0, p0);
        OrCommutes(Or(p0, p1), p0);
        OrAssociates(p0, p0, p1);
      } else {
        var p2 := Place(rest[2], 2);
        assert Bytes(rest, 0, 2) == Or(p0, p1) && Bytes(rest, 0, 3) == Or(Or(p0, p1), p2);
        OrCommutes(Or(p2, p1), p0);
        OrCommutes(p2, p1);
        OrAssociates(p0, p1, p2);
      }
    }
  }

  /** The version for random access iterators. */
  method HashBlocks(mulx: Multiply, seed: bv64, bs: seq<bv8>) returns (r: bv64)
    ensures r == Hash(mulx, seed, bs)
    ensures HashFrom(mulx, mulx(seed + 0x9e3779b97f4a7c15, 0xdf442d22ce4859b9), bs, r)
  {
    hide Or, Xor, Up, Place, Four, Step, Mixed, LittleEndian, Read64, ReadTail, Count, HashFrom;
    HashIs(mulx, seed, bs);
    var p: nat, n: nat := 0, |bs|;
    var w := mulx(Step(seed), K);
    var h := Xor(w, Count(n));
    ghost var whole := Absorb(mulx, w, h, bs);
    AbsorbXor(mulx, w, w, Count(n), bs);
    assert bs[0..] == bs;
    while n >= 8
      invariant p + n == |bs|
      invariant Absorb(mulx, w, h, bs[p..]) == whole
    {
      var v1 := Read64(bs, p);
      Read64Is(bs, p);
      assert bs[p..][..8] == bs[p..p + 8] && bs[p..][8..] == bs[p + 8..];
      w := Step(w);
      h := Xor(h, Mixed(mulx, v1, w));
      p := p + 8;
      n := n - 8;
    }
    var v1 := ReadTail(bs, p, n);
    ReadTailIs(bs, p, n);
    w := Step(w);
    h := Xor(h, Mixed(mulx, v1, w));
    return Mixed(mulx, h, w);
  }

  /** The version for other iterators: one byte at a time, leaving a block early at the end of the range. */
  method HashStream(mulx: Multiply, seed: bv64, bs: seq<bv8>) returns (r: bv64)
    ensures r == Hash(mulx, seed, bs)
    ensures HashFrom(mulx, mulx(seed + 0x9e3779b97f4a7c15, 0xdf442d22ce4859b9), bs, r)
  {
    hide Or, Xor, Up, Place, Four, Step, Mixed, LittleEndian, Count, HashFrom;
    HashIs(mulx, seed, bs);
    var first, n := 0, Count(0);
    var w := mulx(Step(seed), K);
    var h := w;
    ghost var whole := Absorb(mulx, w, h, bs);
    var v1: bv64;
    ghost var start := 0;
    assert bs[0..] == bs;
    while true
      invariant first <= |bs| && n == Count(first)
      invariant Absorb(mulx, w, h, bs[first..]) == whole
      decreases |bs| - first
    {
      start := first;
      var full;
      v1, first, n, full := ReadBytes(bs, first, n);
      if !full { break; }
      assert bs[start..][..8] == bs[start..first] && bs[start..][8..] == bs[first..];
      w := Step(w);
      h := Xor(h, Mixed(mulx, v1, w));
    }
    assert bs[start..] == bs[start..first];
    ghost var h0 := h;
    h := Xor(h, n);
    w := Step(w);
    XorSwap(h0, n, Mixed(mulx, v1, w));
    h := Xor(h, Mixed(mulx, v1, w));
    return Mixed(mulx, h, w);
  }

  /** Reads up to eight bytes, fewer only at the end of the range. */
  method ReadBytes(bs: seq<bv8>, first: nat, n: bv64) returns (v1: bv64, first': nat, n': bv64, full: bool)
    requires first <= |bs| && n == Count(first)
    ensures first <= first' <= |bs| && n' == Count(first') && first' - first <= 8
    ensures (full <==> first' - first == 8) && (!full ==> first' == |bs|)
    ensures v1 == LittleEndian(bs[first..first'])
  {
    hide Or, Place;
    v1, first', n' := 0, first, n;
    ghost var rest := bs[first..];
    var j := 0;
    while j < 8 && first' != |bs|
      invariant j <= 8 && first' == first + j <= |bs| && n' == Count(first')
      invariant v1 == Bytes(rest, 0, j)
    {
      v1 := Or(v1, Place(bs[first'], j));
      first' := first' + 1;
      n' := n' + 1;
      j := j + 1;
    }
    full := j == 8;
    BytesOfPrefix(rest, bs[first..first'], 0, j);
  }
}

/** The group of 15 slots without SIMD: the 16 bytes are stored bit-interleaved in
    two 64-bit words. Bits 0-3 of slot byte p are bits p, p+16, p+32, p+48 of the
    first word and bits 4-7 the same bits of the second; bit j of the overflow
    byte is the top bit of the j-th 16-bit lane. */
module GroupWords {
  import opened SizePolicy
  import Group

  const LANES: bv64 := 0x0001_0001_0001_0001

  predicate Bit(x: bv64, k: bv7)
    requires k < 64
  {
    (x >> k) & 1 == 1
  }

  function Num(b: bool): nat { if b then 1 else 0 }

  /** The number with the given bits, lowest first. */
  function FourBits(b0: bool, b1: bool, b2: bool, b3: bool): (n: nat)
    ensures n < 16
  {
    Num(b0) + 2 * Num(b1) + 4 * Num(b2) + 8 * Num(b3)
  }

  /** A slot position as a shift distance, and back. */
  function Shift(pos: nat): (s: bv7)
    requires pos < N
    ensures s < 15 && Unshift(s) == pos
  {
    if pos == 0 then 0 else if pos == 1 then 1 else if pos == 2 then 2 else if pos == 3 then 3
    else if pos == 4 then 4 else if pos == 5 then 5 else if pos == 6 then 6 else if pos == 7 then 7
    else if pos == 8 then 8 else if pos == 9 then 9 else if pos == 10 then 10 else if pos == 11 then 11
    else if pos == 12 then 12 else if pos == 13 then 13 else 14
  }

  function Unshift(s: bv7): nat {
    if s == 0 then 0 else if s == 1 then 1 else if s == 2 then 2 else if s == 3 then 3
    else if s == 4 then 4 else if s == 5 then 5 else if s == 6 then 6 else if s == 7 then 7
    else if s == 8 then 8 else if s == 9 then 9 else if s == 10 then 10 else if s == 11 then 11
    else if s == 12 then 12 else if s == 13 then 13 else 14
  }

  /** The four bits of a word that belong to one slot, as a number. */
  function Nibble(x: bv64, s: bv7): (n: nat)
    requires s < 15
    ensures n < 16
  {
    FourBits(Bit(x, s), Bit(x, s + 16), Bit(x, s + 32), Bit(x, s + 48))
  }

  /** How far lane j of a word is from its low end. */
  function LaneShift(j: nat): (lane: bv7)
    requires j < 8
    ensures lane == 0 || lane == 16 || lane == 32 || lane == 48
  {
    if j % 4 == 0 then 0 else if j % 4 == 1 then 16 else if j % 4 == 2 then 32 else 48
  }

  /** The bytes that a pair of words stands for. */
  function Bytes(m0: bv64, m1: bv64): (g: Group.Group15) {
    Group.GroupBytes(
      seq(15, p requires 0 <= p < 15 => Nibble(m0, Shift(p)) + 16 * Nibble(m1, Shift(p))),
      seq(8, j requires 0 <= j < 8 => Bit(if j < 4 then m0 else m1, 15 + LaneShift(j))))
  }

  /** The bits of a number below 16 spread over the lanes, and their complements. */
  function SpreadMask(n: nat): bv64
    requires n < 16
  {
    if n == 0 then 0 else if n == 1 then 0x0000000000000001
    else if n == 2 then 0x0000000000010000 else if n == 3 then 0x0000000000010001
    else if n == 4 then 0x0000000100000000 else if n == 5 then 0x0000000100000001
    else if n == 6 then 0x0000000100010000 else if n == 7 then 0x0000000100010001
    else if n == 8 then 0x0001000000000000 else if n == 9 then 0x0001000000000001
    else if n == 10 then 0x0001000000010000 else if n == 11 then 0x0001000000010001
    else if n == 12 then 0x0001000100000000 else if n == 13 then 0x0001000100000001
    else if n == 14 then 0x0001000100010000
    else 0x0001000100010001
  }

  function SpreadInverse(n: nat): bv64
    requires n < 16
  {
    if n == 0 then 0x0001000100010001 else if n == 1 then 0x0001000100010000
    else if n == 2 then 0x0001000100000001 else if n == 3 then 0x0001000100000000
    else if n == 4 then 0x0001000000010001 else if n == 5 then 0x0001000000010000
    else if n == 6 then 0x0001000000000001 else if n == 7 then 0x0001000000000000
    else if n == 8 then 0x0000000100010001 else if n == 9 then 0x0000000100010000
    else if n == 10 then 0x0000000100000001 else if n == 11 then 0x0000000100000000
    else if n == 12 then 0x0000000000010001 else if n == 13 then 0x0000000000010000
    else if n == 14 then 0x0000000000000001
    else 0
  }

  /** Whole lanes filled where the number has a bit. */
  function FullMask(n: nat): bv64
    requires n < 16
  {
    if n == 0 then 0 else if n == 1 then 0x000000000000ffff
    else if n == 2 then 0x00000000ffff0000 else if n == 3 then 0x00000000ffffffff
    else if n == 4 then 0x0000ffff00000000 else if n == 5 then 0x0000ffff0000ffff
    else if n == 6 then 0x0000ffffffff0000 else if n == 7 then 0x0000ffffffffffff
    else if n == 8 then 0xffff000000000000 else if n == 9 then 0xffff00000000ffff
    else if n == 10 then 0xffff0000ffff0000 else if n == 11 then 0xffff0000ffffffff
    else if n == 12 then 0xffffffff00000000 else if n == 13 then 0xffffffff0000ffff
    else if n == 14 then 0xffffffffffff0000
    else 0xffffffffffffffff
  }

  /** Writes the low four bits of a slot into one word. */
  function SetImpl(x: bv64, s: bv7, n: nat): bv64
    requires s < 15 && n < 16
  {
    Put(x, SpreadMask(n), SpreadInverse(n), s)
  }

  function Put(x: bv64, ones: bv64, zeros: bv64, s: bv7): bv64
    requires s < 15
  {
    (x | (ones << s)) & !(zeros << s)
  }

  /** Bits only in the lowest place of each lane, and the complement there. */
  predicate Spread(ones: bv64, zeros: bv64) {
    ones & !LANES == 0 && zeros == LANES & !ones
  }

  lemma SpreadBits(n: nat)
    requires n < 16
    ensures var k := SpreadMask(n);
            && Spread(k, SpreadInverse(n))
            && n == FourBits(Bit(k, 0), Bit(k, 16), Bit(k, 32), Bit(k, 48))
  {
    hide *;
    SpreadComplement(n);
    SpreadNumber(n);
  }

  lemma SpreadComplement(n: nat)
    requires n < 16
    ensures Spread(SpreadMask(n), SpreadInverse(n))
  {
    hide Bit, FourBits;
  }

  lemma SpreadNumber(n: nat)
    requires n < 16
    ensures var k := SpreadMask(n); n == FourBits(Bit(k, 0), Bit(k, 16), Bit(k, 32), Bit(k, 48))
  {
    hide Spread, SpreadInverse;
    if n < 8 {
      assert n == 0 || n == 1 || n == 2 || n == 3 || n == 4 || n == 5 || n == 6 || n == 7;
    } else {
      assert n == 8 || n == 9 || n == 10 || n == 11 || n == 12 || n == 13 || n == 14 || n == 15;
    }
  }

  /** Writing spread bits at one slot changes exactly that slot's bits, lane by lane. */
  lemma SetLane(x: bv64, k: bv64, zeros: bv64, s: bv7, s': bv7, lane: bv7)
    requires s < 15 && s' < 15 && Spread(k, zeros)
    requires lane == 0 || lane == 16 || lane == 32 || lane == 48
    ensures var y := Put(x, k, zeros, s);
            Bit(y, s' + lane) == if s' == s then Bit(k, lane) else Bit(x, s' + lane)
  {
  }

  lemma SetTopBits(x: bv64, k: bv64, zeros: bv64, s: bv7)
    requires s < 15 && Spread(k, zeros)
    ensures var y := Put(x, k, zeros, s);
            Bit(y, 15) == Bit(x, 15) && Bit(y, 31) == Bit(x, 31) && Bit(y, 47) == Bit(x, 47) && Bit(y, 63) == Bit(x, 63)
  {
  }

  lemma SetNibble(x: bv64, s: bv7, s': bv7, n: nat)
    requires s < 15 && s' < 15 && n < 16
    ensures Nibble(SetImpl(x, s, n), s') == if s' == s then n else Nibble(x, s')
  {
    hide Bit, Put, Spread, SpreadMask, SpreadInverse, FourBits;
    var k, zeros := SpreadMask(n), SpreadInverse(n);
    SpreadBits(n);
    SetLane(x, k, zeros, s, s', 0);
    SetLane(x, k, zeros, s, s', 16);
    SetLane(x, k, zeros, s, s', 32);
    SetLane(x, k, zeros, s, s', 48);
  }

  /** Writing a slot of one word: the slot reads back, the other slots and the overflow bits stay. */
  lemma SetImplEffect(x: bv64, s: bv7, n: nat)
    requires s < 15 && n < 16
    ensures var y := SetImpl(x, s, n);
            && (forall s': bv7 {:trigger Nibble(y, s')} | s' < 15 ::
                  Nibble(y, s') == if s' == s then n else Nibble(x, s'))
            && (forall j: nat | j < 8 :: Bit(y, 15 + LaneShift(j)) == Bit(x, 15 + LaneShift(j)))
  {
    hide Bit, Put, Spread, SpreadMask, SpreadInverse, Nibble;
    forall s': bv7 | s' < 15 ensures Nibble(SetImpl(x, s, n), s') == if s' == s then n else Nibble(x, s') {
      SetNibble(x, s, s', n);
    }
    SpreadBits(n);
    SetTopBits(x, SpreadMask(n), SpreadInverse(n), s);
  }

  /** Writing a byte into both words writes that byte of the group. */
  lemma SetByte(m0: bv64, m1: bv64, pos: nat, n: nat)
    requires pos < N && n < 256
    ensures Bytes(SetImpl(m0, Shift(pos), n % 16), SetImpl(m1, Shift(pos), n / 16))
         == Bytes(m0, m1).(slots := Bytes(m0, m1).slots[pos := n])
  {
    hide Bit, SetImpl, Shift, Unshift, LaneShift, Nibble;
    var g, g' := Bytes(m0, m1), Bytes(SetImpl(m0, Shift(pos), n % 16), SetImpl(m1, Shift(pos), n / 16));
    SetImplEffect(m0, Shift(pos), n % 16);
    SetImplEffect(m1, Shift(pos), n / 16);
    forall p | 0 <= p < N ensures g'.slots[p] == g.slots[pos := n][p] {
      assert Unshift(Shift(p)) == p && Unshift(Shift(pos)) == pos;
    }
    assert g'.slots == g.slots[pos := n];
    assert g'.overflow == g.overflow;
  }

  function Mark(x: bv64, lane: bv7): bv64
    requires lane <= 48
  {
    x | (0x8000 << lane)
  }

  /** Setting the top bit of a lane touches no slot and no other top bit. */
  lemma MarkKeepsSlot(x: bv64, lane: bv7, lane': bv7, s: bv7)
    requires lane == 0 || lane == 16 || lane == 32 || lane == 48
    requires lane' == 0 || lane' == 16 || lane' == 32 || lane' == 48
    requires s < 15
    ensures Bit(Mark(x, lane), s + lane') == Bit(x, s + lane')
  {
    MarkIsOr(x, lane);
  }

  lemma MarkTops(x: bv64, lane: bv7, lane': bv7)
    requires lane == 0 || lane == 16 || lane == 32 || lane == 48
    requires lane' == 0 || lane' == 16 || lane' == 32 || lane' == 48
    ensures Bit(Mark(x, lane), 15 + lane') == (lane == lane' || Bit(x, 15 + lane'))
  {
    MarkIsOr(x, lane);
  }

  lemma MarkIsOr(x: bv64, lane: bv7)
    requires lane == 0 || lane == 16 || lane == 32 || lane == 48
    ensures Mark(x, lane) == x | if lane == 0 then 0x8000 else if lane == 16 then 0x8000_0000
                                  else if lane == 32 then 0x8000_0000_0000 else 0x8000_0000_0000_0000
  {
  }

  lemma MarkNibbles(x: bv64, lane: bv7)
    requires lane == 0 || lane == 16 || lane == 32 || lane == 48
    ensures forall s: bv7 | s < 15 :: Nibble(Mark(x, lane), s) == Nibble(x, s)
  {
    hide Bit, Mark;
    forall s: bv7 | s < 15 ensures Nibble(Mark(x, lane), s) == Nibble(x, s) {
      MarkKeepsSlot(x, lane, 0, s);
      MarkKeepsSlot(x, lane, 16, s);
      MarkKeepsSlot(x, lane, 32, s);
      MarkKeepsSlot(x, lane, 48, s);
    }
  }

  lemma MarkByte(m0: bv64, m1: bv64, j: nat)
    requires j < 8
    ensures var y0 := if j < 4 then Mark(m0, LaneShift(j)) else m0;
            var y1 := if j < 4 then m1 else Mark(m1, LaneShift(j));
            Bytes(y0, y1) == Bytes(m0, m1).(overflow := Bytes(m0, m1).overflow[j := true])
  {
    hide Bit, Nibble, Shift, Mark;
    var y0 := if j < 4 then Mark(m0, LaneShift(j)) else m0;
    var y1 := if j < 4 then m1 else Mark(m1, LaneShift(j));
    var g, g' := Bytes(m0, m1), Bytes(y0, y1);
    MarkNibbles(m0, LaneShift(j));
    MarkNibbles(m1, LaneShift(j));
    assert g'.slots == g.slots;
    forall i: nat | i < 8 ensures g'.overflow[i] == g.overflow[j := true][i] {
      MarkTops(if j < 4 then m0 else m1, LaneShift(j), LaneShift(i));
    }
    assert g'.overflow == g.overflow[j := true];
  }

  /** A 15-bit word as the mask of the slots whose bits are set. */
  function ToMask(y: bv64): (m: Group.Mask) {
    seq(15, p requires 0 <= p < 15 => Bit(y, Shift(p)))
  }

  /** The conjunction of the four lanes, kept to the 15 slot bits. */
  function FoldAnd(x: bv64): (r: bv64)
    ensures r <= 0x7FFF
  {
    var y := (x & (x >> 32)) & 0xFFFF_FFFF;
    y & (y >> 16) & 0x7FFF
  }

  function FoldOr(x: bv64): (r: bv64)
    ensures r <= 0x7FFF
  {
    var y := (x | (x >> 32)) & 0xFFFF_FFFF;
    (y | (y >> 16)) & 0x7FFF
  }

  lemma FoldBits(x: bv64, s: bv7)
    requires s < 15
    ensures Bit(FoldAnd(x), s) == (Bit(x, s) && Bit(x, s + 16) && Bit(x, s + 32) && Bit(x, s + 48))
    ensures Bit(FoldOr(x), s) == (Bit(x, s) || Bit(x, s + 16) || Bit(x, s + 32) || Bit(x, s + 48))
  {
  }

  function Or(x: bv64, y: bv64): bv64 { x | y }
  function Xor(x: bv64, y: bv64): bv64 { x ^ y }
  function Not(x: bv64): bv64 { !x }

  lemma OrOperator(x: bv64, y: bv64, k: bv7)
    requires k < 64
    ensures Bit(x | y, k) == (Bit(x, k) || Bit(y, k))
  {
  }

  lemma XorOperator(x: bv64, y: bv64, k: bv7)
    requires k < 64
    ensures Bit(x ^ y, k) == (Bit(x, k) != Bit(y, k))
  {
  }

  lemma NotOperator(x: bv64, k: bv7)
    requires k < 64
    ensures Bit(!x, k) == !Bit(x, k)
  {
  }

  lemma OrBit(x: bv64, y: bv64, k: bv7)
    requires k < 64
    ensures Bit(Or(x, y), k) == (Bit(x, k) || Bit(y, k))
  {
    OrOperator(x, y, k);
  }

  lemma XorBit(x: bv64, y: bv64, k: bv7)
    requires k < 64
    ensures Bit(Xor(x, y), k) == (Bit(x, k) != Bit(y, k))
  {
    XorOperator(x, y, k);
  }

  lemma NotBit(x: bv64, k: bv7)
    requires k < 64
    ensures Bit(Not(x), k) == !Bit(x, k)
  {
    NotOperator(x, k);
  }

  /** Every bit of a full mask's lane is the number's bit for that lane. */
  lemma FullBits(n: nat, s: bv7)
    requires n < 16 && s < 15
    ensures var k := FullMask(n);
            n == FourBits(Bit(k, s), Bit(k, s + 16), Bit(k, s + 32), Bit(k, s + 48))
  {
  }

  lemma FourBitsInjective(b0: bool, b1: bool, b2: bool, b3: bool, c0: bool, c1: bool, c2: bool, c3: bool)
    ensures FourBits(b0, b1, b2, b3) == FourBits(c0, c1, c2, c3) <==> b0 == c0 && b1 == c1 && b2 == c2 && b3 == c3
  {
  }

  /** The bits of all slots whose byte is n. */
  function MatchWord(m0: bv64, m1: bv64, n: nat): (r: bv64)
    requires n < 256
    ensures r <= 0x7FFF
  {
    FoldAnd(Equal(m0, m1, FullMask(n % 16), FullMask(n / 16)))
  }

  /** The places where both words agree with the given patterns. */
  function Equal(m0: bv64, m1: bv64, f0: bv64, f1: bv64): bv64 {
    Not(Or(Xor(m1, f1), Xor(m0, f0)))
  }

  lemma EqualBit(m0: bv64, m1: bv64, f0: bv64, f1: bv64, k: bv7)
    requires k < 64
    ensures Bit(Equal(m0, m1, f0, f1), k) == (Bit(m0, k) == Bit(f0, k) && Bit(m1, k) == Bit(f1, k))
  {
    hide Bit, Xor, Or, Not;
    XorBit(m0, f0, k);
    XorBit(m1, f1, k);
    OrBit(Xor(m1, f1), Xor(m0, f0), k);
    NotBit(Or(Xor(m1, f1), Xor(m0, f0)), k);
  }

  lemma MatchAt(m0: bv64, m1: bv64, n: nat, s: bv7)
    requires n < 256 && s < 15
    ensures Bit(MatchWord(m0, m1, n), s) <==> Nibble(m0, s) == n % 16 && Nibble(m1, s) == n / 16
  {
    hide Bit, FoldAnd, FullMask, Equal, FourBits;
    var f0, f1 := FullMask(n % 16), FullMask(n / 16);
    FullBits(n % 16, s);
    FullBits(n / 16, s);
    FoldBits(Equal(m0, m1, f0, f1), s);
    EqualBit(m0, m1, f0, f1, s);
    EqualBit(m0, m1, f0, f1, s + 16);
    EqualBit(m0, m1, f0, f1, s + 32);
    EqualBit(m0, m1, f0, f1, s + 48);
    FourBitsInjective(Bit(m0, s), Bit(m0, s + 16), Bit(m0, s + 32), Bit(m0, s + 48),
                      Bit(f0, s), Bit(f0, s + 16), Bit(f0, s + 32), Bit(f0, s + 48));
    FourBitsInjective(Bit(m1, s), Bit(m1, s + 16), Bit(m1, s + 32), Bit(m1, s + 48),
                      Bit(f1, s), Bit(f1, s + 16), Bit(f1, s + 32), Bit(f1, s + 48));
  }

  /** Folding the lanes finds exactly the slots whose byte is n. */
  lemma MatchFinds(m0: bv64, m1: bv64, n: nat)
    requires n < 256
    ensures forall p | 0 <= p < N :: ToMask(MatchWord(m0, m1, n))[p] <==> Bytes(m0, m1).slots[p] == n
  {
    hide Bit, MatchWord, Nibble, Shift;
    forall p | 0 <= p < N ensures ToMask(MatchWord(m0, m1, n))[p] <==> Bytes(m0, m1).slots[p] == n {
      MatchAt(m0, m1, n, Shift(p));
    }
  }

  lemma NibbleZero(x: bv64, s: bv7)
    requires s < 15
    ensures Nibble(x, s) == 0 <==> !Bit(x, s) && !Bit(x, s + 16) && !Bit(x, s + 32) && !Bit(x, s + 48)
  {
  }

  /** A byte is nonzero exactly if the two words together have a bit in its slot. */
  lemma ZeroAt(m0: bv64, m1: bv64, s: bv7)
    requires s < 15
    ensures var x := Or(m0, m1);
            Nibble(m0, s) == 0 && Nibble(m1, s) == 0 <==>
                !Bit(x, s) && !Bit(x, s + 16) && !Bit(x, s + 32) && !Bit(x, s + 48)
  {
    hide Bit, Nibble, Or;
    NibbleZero(m0, s);
    NibbleZero(m1, s);
    OrBit(m0, m1, s);
    OrBit(m0, m1, s + 16);
    OrBit(m0, m1, s + 32);
    OrBit(m0, m1, s + 48);
  }

  lemma AvailableAt(m0: bv64, m1: bv64, s: bv7)
    requires s < 15
    ensures Bit(FoldAnd(Not(Or(m0, m1))), s) <==> Nibble(m0, s) == 0 && Nibble(m1, s) == 0
    ensures Bit(FoldOr(Or(m0, m1)), s) <==> !(Nibble(m0, s) == 0 && Nibble(m1, s) == 0)
  {
    hide Bit, Nibble, FoldAnd, FoldOr, Or, Not;
    var x := Or(m0, m1);
    ZeroAt(m0, m1, s);
    FoldBits(Not(x), s);
    FoldBits(x, s);
    NotBit(x, s);
    NotBit(x, s + 16);
    NotBit(x, s + 32);
    NotBit(x, s + 48);
  }

  /** Folding finds exactly the slots that are available, and exactly those that are not. */
  lemma AvailableFinds(m0: bv64, m1: bv64)
    ensures forall p | 0 <= p < N :: ToMask(FoldAnd(Not(Or(m0, m1))))[p] <==> Bytes(m0, m1).slots[p] == Group.AVAILABLE
    ensures forall p | 0 <= p < N :: ToMask(FoldOr(Or(m0, m1)))[p] <==> Bytes(m0, m1).slots[p] != Group.AVAILABLE
  {
    hide Bit, Nibble, Shift, FoldAnd, FoldOr, Or, Not;
    forall p | 0 <= p < N
      ensures ToMask(FoldAnd(Not(Or(m0, m1))))[p] <==> Bytes(m0, m1).slots[p] == Group.AVAILABLE
      ensures ToMask(FoldOr(Or(m0, m1)))[p] <==> Bytes(m0, m1).slots[p] != Group.AVAILABLE
    {
      AvailableAt(m0, m1, Shift(p));
    }
  }

  /** No bit of the slot is set. */
  predicate LanesClear(x: bv64, s: bv7)
    requires s < 15
  {
    x & (LANES << s) == 0
  }

  lemma LanesAt(x: bv64, s: bv7)
    requires s < 15
    ensures LanesClear(x, s) <==> !Bit(x, s) && !Bit(x, s + 16) && !Bit(x, s + 32) && !Bit(x, s + 48)
  {
  }

  lemma OccupiedAt(m0: bv64, m1: bv64, pos: nat)
    requires pos < N
    ensures LanesClear(Or(m0, m1), Shift(pos)) <==> Bytes(m0, m1).slots[pos] == Group.AVAILABLE
  {
    hide Bit, Nibble, Shift, LanesClear, LaneShift, Or;
    LanesAt(Or(m0, m1), Shift(pos));
    ZeroAt(m0, m1, Shift(pos));
  }

  const LANES14: bv64 := 0x4000_4000_4000_4000

  lemma LastSlotBits(x: bv64)
    ensures x & LANES14 == 0x4000 <==> Bit(x, 14) && !Bit(x, 30) && !Bit(x, 46) && !Bit(x, 62)
    ensures x & LANES14 == 0 <==> !Bit(x, 14) && !Bit(x, 30) && !Bit(x, 46) && !Bit(x, 62)
  {
  }

  lemma SentinelAt(m0: bv64, m1: bv64)
    ensures m0 & LANES14 == 0x4000 && m1 & LANES14 == 0 <==> Bytes(m0, m1).slots[N - 1] == Group.SENTINEL
  {
    hide Bit;
    LastSlotBits(m0);
    LastSlotBits(m1);
    assert Bytes(m0, m1).slots[N - 1] == Nibble(m0, 14) + 16 * Nibble(m1, 14);
  }

  /** The 16-bit lane has its top bit clear. */
  predicate TopClear(x: bv64, lane: bv7)
    requires lane <= 48
  {
    (x >> lane) & 0xFFFF & 0x8000 == 0
  }

  lemma OverflowAt(m0: bv64, m1: bv64, j: nat)
    requires j < 8
    ensures TopClear(if j < 4 then m0 else m1, LaneShift(j)) <==> !Bytes(m0, m1).overflow[j]
  {
    hide Bit, TopClear, Nibble, Shift, LaneShift;
    LaneTop(if j < 4 then m0 else m1, LaneShift(j));
  }

  lemma LaneTop(x: bv64, lane: bv7)
    requires lane == 0 || lane == 16 || lane == 32 || lane == 48
    ensures TopClear(x, lane) <==> !Bit(x, 15 + lane)
  {
  }

  /** Gathers the three low bits of a slot's byte at the bottom of a word. */
  function LowBits(m0: bv64, s: bv7): bv64
    requires s < 15
  {
    var x := (m0 >> s) & 0x0001_0001_0001;
    (x | (x >> 15) | (x >> 30)) & 0xFFFF_FFFF
  }

  /** A word modulo 8. */
  function Mod8(y: bv64): (j: nat)
    ensures j < 8
  {
    FourBits(Bit(y, 0), Bit(y, 1), Bit(y, 2), false)
  }

  lemma LowBitsAt(m0: bv64, s: bv7)
    requires s < 15
    ensures Bit(LowBits(m0, s), 0) == Bit(m0, s)
    ensures Bit(LowBits(m0, s), 1) == Bit(m0, s + 16)
    ensures Bit(LowBits(m0, s), 2) == Bit(m0, s + 32)
  {
  }

  lemma FourBitsMod8(b0: bool, b1: bool, b2: bool, b3: bool, k: nat)
    ensures (FourBits(b0, b1, b2, b3) + 16 * k) % 8 == FourBits(b0, b1, b2, false)
  {
  }

  /** The gathered bits are the slot's byte modulo 8. */
  lemma LowBitsAreByte(m0: bv64, m1: bv64, pos: nat)
    requires pos < N
    ensures Mod8(LowBits(m0, Shift(pos))) == Bytes(m0, m1).slots[pos] % 8
  {
    hide Bit, FourBits, Shift, LowBits;
    var s := Shift(pos);
    LowBitsAt(m0, s);
    FourBitsMod8(Bit(m0, s), Bit(m0, s + 16), Bit(m0, s + 32), Bit(m0, s + 48), Nibble(m1, s));
  }

  /** The bits of y below place s are clear. */
  predicate LowClear(y: bv64, s: bv7)
    requires s < 64
  {
    y & ((1 << s) - 1) == 0
  }

  lemma LowClearNext(y: bv64, s: bv7)
    requires s < 15 && LowClear(y, s) && !Bit(y, s)
    ensures LowClear(y, s + 1)
  {
  }

  lemma {:induction false} LowClearUpTo(y: bv64, n: nat)
    requires n < N && forall p | 0 <= p < n :: !Bit(y, Shift(p))
    ensures LowClear(y, Shift(n))
  {
    hide Bit, LowClear;
    if n == 0 {
      NothingBelow(y);
    } else {
      LowClearUpTo(y, n - 1);
      LowClearNext(y, Shift(n - 1));
      assert Shift(n) == Shift(n - 1) + 1;
    }
  }

  lemma NothingBelow(y: bv64)
    ensures LowClear(y, 0)
  {
  }

  function WithoutLowest(y: bv64): bv64 { y & (y - 1) }

  lemma WithoutLowestBit(y: bv64, s: bv7, s': bv7)
    requires s < 15 && s' < 15 && LowClear(y, s) && Bit(y, s)
    ensures Bit(WithoutLowest(y), s') == (Bit(y, s') && s' != s)
  {
    hide LowClear, WithoutLowest;
    LowestIsOneBit(y, s);
  }

  lemma LowestIsOneBit(y: bv64, s: bv7)
    requires s < 15 && LowClear(y, s) && Bit(y, s)
    ensures WithoutLowest(y) == y & !(1 << s)
  {
  }

  lemma SomeBit(y: bv64)
    requires y != 0 && y <= 0x7FFF
    ensures exists p: nat :: p < N && Bit(y, Shift(p))
  {
    if !(exists p: nat :: p < N && Bit(y, Shift(p))) {
      LowClearUpTo(y, 14);
      LowClearNext(y, Shift(14));
    }
  }

  /** The loop step mask &= mask - 1 drops the lowest matching slot. */
  lemma DropLowest(y: bv64)
    requires y != 0 && y <= 0x7FFF
    ensures Group.NonZero(ToMask(y)) && ToMask(WithoutLowest(y)) == Group.ClearLowest(ToMask(y))
  {
    hide Bit, LowClear, WithoutLowest, Shift, Unshift;
    SomeBit(y);
    var m := ToMask(y);
    var p: nat :| p < N && Bit(y, Shift(p));
    assert m[p];
    var n := Group.CountrZero(m);
    forall q | 0 <= q < n ensures !Bit(y, Shift(q)) {
      assert !m[q];
    }
    LowClearUpTo(y, n);
    forall q | 0 <= q < N ensures ToMask(WithoutLowest(y))[q] == m[n := false][q] {
      WithoutLowestBit(y, Shift(n), Shift(q));
      assert Unshift(Shift(n)) == n && Unshift(Shift(q)) == q;
    }
    assert ToMask(WithoutLowest(y)) == m[n := false];
  }
}

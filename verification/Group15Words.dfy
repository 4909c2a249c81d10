/** The non-SIMD group as the class that updates its two words in place, proved
    against the bytes of Group. */
module Group15Words {
  import opened SizePolicy
  import opened GroupWords
  import Group

  class Group15 {
    var m0: bv64
    var m1: bv64

    /** The bytes this group stands for. */
    function Abs(): Group.Group15
      reads this
    {
      Bytes(m0, m1)
    }

    constructor ()
      ensures Abs() == Group.Initialized()
    {
      m0 := 0;
      m1 := 0;
      new;
      ZeroBytes();
    }

    method Initialize()
      modifies this
      ensures Abs() == Group.Initialized()
    {
      m0 := 0;
      m1 := 0;
      ZeroBytes();
    }

    method SetByteAt(pos: nat, n: nat)
      requires pos < N && n < 256
      modifies this
      ensures Abs() == old(Abs()).(slots := old(Abs()).slots[pos := n])
    {
      SetByte(m0, m1, pos, n);
      m0 := SetImpl(m0, Shift(pos), n % 16);
      m1 := SetImpl(m1, Shift(pos), n / 16);
    }

    method Set(pos: nat, hash: nat)
      requires pos < N
      modifies this
      ensures Abs() == Group.Set(old(Abs()), pos, hash)
    {
      SetByteAt(pos, Group.ReducedHash(hash));
    }

    method SetSentinel()
      modifies this
      ensures Abs() == Group.SetSentinel(old(Abs()))
    {
      SetByteAt(N - 1, Group.SENTINEL);
    }

    method Reset(pos: nat)
      requires pos < N
      modifies this
      ensures Abs() == Group.Reset(old(Abs()), pos)
    {
      SetByteAt(pos, Group.AVAILABLE);
    }

    method MarkOverflow(hash: nat)
      modifies this
      ensures Abs() == Group.MarkOverflow(old(Abs()), hash)
    {
      MarkByte(m0, m1, hash % 8);
      if hash % 8 < 4 {
        m0 := Mark(m0, LaneShift(hash % 8));
      } else {
        m1 := Mark(m1, LaneShift(hash % 8));
      }
    }

    predicate IsSentinel(pos: nat): (r: bool)
      requires pos < N
      reads this
      ensures r == Group.IsSentinel(Abs(), pos)
    {
      SentinelAt(m0, m1);
      pos == N - 1 && m0 & LANES14 == 0x4000 && m1 & LANES14 == 0
    }

    function Match(hash: nat): (mask: bv64)
      reads this
      ensures mask <= 0x7FFF && ToMask(mask) == Group.Match(Abs(), hash)
    {
      MatchFinds(m0, m1, Group.ReducedHash(hash));
      MatchWord(m0, m1, Group.ReducedHash(hash))
    }

    predicate IsNotOverflowed(hash: nat): (r: bool)
      reads this
      ensures r == Group.IsNotOverflowed(Abs(), hash)
    {
      OverflowAt(m0, m1, hash % 8);
      TopClear(if hash % 8 < 4 then m0 else m1, LaneShift(hash % 8))
    }

    predicate MaybeCausedOverflow(pos: nat): (r: bool)
      requires pos < N
      reads this
      ensures r == Group.MaybeCausedOverflow(Abs(), pos)
    {
      hide *;
      CausedAt(m0, m1, pos);
      !IsNotOverflowed(Mod8(LowBits(m0, Shift(pos))))
    }

    function MatchAvailable(): (mask: bv64)
      reads this
      ensures mask <= 0x7FFF && ToMask(mask) == Group.MatchAvailable(Abs())
    {
      AvailableFinds(m0, m1);
      FoldAnd(Not(Or(m0, m1)))
    }

    predicate IsOccupied(pos: nat): (r: bool)
      requires pos < N
      reads this
      ensures r == Group.IsOccupied(Abs(), pos)
    {
      OccupiedAt(m0, m1, pos);
      !LanesClear(Or(m0, m1), Shift(pos))
    }

    function MatchOccupied(): (mask: bv64)
      reads this
      ensures mask <= 0x7FFF && ToMask(mask) == Group.MatchOccupied(Abs())
    {
      AvailableFinds(m0, m1);
      FoldOr(Or(m0, m1))
    }
  }

  lemma CausedAt(m0: bv64, m1: bv64, pos: nat)
    requires pos < N
    ensures var g := Bytes(m0, m1);
            Group.MaybeCausedOverflow(g, pos) == !Group.IsNotOverflowed(g, Mod8(LowBits(m0, Shift(pos))))
  {
    hide Bit, FourBits, Shift, LowBits, Nibble, Bytes, Mod8;
    LowBitsAreByte(m0, m1, pos);
  }

  lemma ZeroBytes()
    ensures Bytes(0, 0) == Group.Initialized()
  {
    var g := Bytes(0, 0);
    forall p | 0 <= p < N ensures g.slots[p] == 0 {
      ZeroNibble(Shift(p));
    }
    assert g.slots == Group.Initialized().slots;
    assert g.overflow == Group.Initialized().overflow;
  }

  lemma ZeroNibble(s: bv7)
    requires s < 15
    ensures Nibble(0, s) == 0
  {
    NibbleZero(0, s);
  }

  datatype Op = SetOp(pos: nat, hash: nat) | SetSentinelOp | ResetOp(pos: nat) | MarkOverflowOp(hash: nat)

  function ApplyOp(g: Group.Group15, op: Op): Group.Group15
    requires op.SetOp? || op.ResetOp? ==> op.pos < N
  {
    match op
    case SetOp(pos, hash) => Group.Set(g, pos, hash)
    case SetSentinelOp => Group.SetSentinel(g)
    case ResetOp(pos) => Group.Reset(g, pos)
    case MarkOverflowOp(hash) => Group.MarkOverflow(g, hash)
  }

  predicate InRange(ops: seq<Op>) {
    forall i | 0 <= i < |ops| :: ops[i].SetOp? || ops[i].ResetOp? ==> ops[i].pos < N
  }

  function ApplyAll(g: Group.Group15, ops: seq<Op>): Group.Group15
    requires InRange(ops)
    decreases |ops|
  {
    if ops == [] then g else ApplyAll(ApplyOp(g, ops[0]), ops[1..])
  }

  /** After any sequence of updates the words stand for the bytes after the same updates. */
  method Run(g: Group15, ops: seq<Op>)
    requires InRange(ops)
    modifies g
    ensures g.Abs() == ApplyAll(old(g.Abs()), ops)
  {
    hide Bytes;
    var i := 0;
    while i < |ops|
      invariant i <= |ops| && InRange(ops[i..])
      invariant ApplyAll(g.Abs(), ops[i..]) == ApplyAll(old(g.Abs()), ops)
    {
      assert ops[i..][1..] == ops[i + 1..];
      match ops[i] {
        case SetOp(pos, hash) => g.Set(pos, hash);
        case SetSentinelOp => g.SetSentinel();
        case ResetOp(pos) => g.Reset(pos);
        case MarkOverflowOp(hash) => g.MarkOverflow(hash);
      }
      i := i + 1;
    }
  }
}

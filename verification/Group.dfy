/** A metadata group at the byte level: 15 slot bytes and one overflow byte.
    A slot byte is 0 when the slot is available, 1 for the sentinel mark, and a
    reduced hash in [2, 255] when the slot is occupied. */
module Group {
  import opened Words
  import opened SizePolicy

  const AVAILABLE: nat := 0
  const SENTINEL: nat := 1

  datatype GroupBytes = GroupBytes(slots: seq<nat>, overflow: seq<bool>)

  ghost predicate WellFormed(g: GroupBytes) {
    && |g.slots| == N
    && |g.overflow| == 8
    && forall p | 0 <= p < N :: g.slots[p] < 256
  }

  type Group15 = g: GroupBytes | WellFormed(g)
    witness GroupBytes([0, 0, 0, 0, 0, 0, 0, 0, 0, 0, 0, 0, 0, 0, 0],
                       [false, false, false, false, false, false, false, false])

  /** A bit mask over the slots of a group, bit i first. */
  type Mask = m: seq<bool> | |m| == N witness seq(15, _ => false)

  /** The reduced hash of a hash word: its low byte, unless that is a reserved one, which gets eight more; so never
      a reserved byte, and with the same low three bits. */
  function ReducedHash(hash: nat): (r: nat)
    ensures 2 <= r < 256
    ensures r % 8 == hash % 8
    ensures r != hash % 256 ==> hash % 256 < 2 && r == hash % 256 + 8
  {
    var b := hash % 256;
    if b < 2 then b + 8 else b
  }

  function Initialized(): Group15 {
    GroupBytes(seq(15, _ => AVAILABLE), seq(8, _ => false))
  }

  function Set(g: Group15, pos: nat, hash: nat): Group15
    requires pos < N
  {
    g.(slots := g.slots[pos := ReducedHash(hash)])
  }

  function SetSentinel(g: Group15): Group15 {
    g.(slots := g.slots[N - 1 := SENTINEL])
  }

  predicate IsSentinel(g: Group15, pos: nat)
    requires pos < N
  {
    pos == N - 1 && g.slots[N - 1] == SENTINEL
  }

  function Reset(g: Group15, pos: nat): Group15
    requires pos < N
  {
    g.(slots := g.slots[pos := AVAILABLE])
  }

  function Match(g: Group15, hash: nat): (m: Mask)
    ensures forall p | 0 <= p < N :: m[p] <==> g.slots[p] == ReducedHash(hash)
  {
    seq(15, i requires 0 <= i < 15 => g.slots[i] == ReducedHash(hash))
  }

  predicate IsNotOverflowed(g: Group15, hash: nat) {
    !g.overflow[hash % 8]
  }

  function MarkOverflow(g: Group15, hash: nat): Group15 {
    g.(overflow := g.overflow[hash % 8 := true])
  }

  /** Whether some element sharing this slot's hash modulo 8 may have overflowed the group. */
  predicate MaybeCausedOverflow(g: Group15, pos: nat)
    requires pos < N
  {
    !IsNotOverflowed(g, g.slots[pos])
  }

  function MatchAvailable(g: Group15): (m: Mask)
    ensures forall p | 0 <= p < N :: m[p] <==> g.slots[p] == AVAILABLE
  {
    seq(15, i requires 0 <= i < 15 => g.slots[i] == AVAILABLE)
  }

  predicate IsOccupied(g: Group15, pos: nat)
    requires pos < N
  {
    g.slots[pos] != AVAILABLE
  }

  function MatchOccupied(g: Group15): (m: Mask)
    ensures forall p | 0 <= p < N :: m[p] <==> g.slots[p] != AVAILABLE
  {
    seq(15, i requires 0 <= i < 15 => g.slots[i] != AVAILABLE)
  }

  /** Occupied slots without the sentinel of the last group. */
  function MatchReallyOccupied(g: Group15, last: bool): (m: Mask)
    ensures forall p | 0 <= p < N :: m[p] <==> g.slots[p] != AVAILABLE && !(last && p == N - 1)
  {
    if last then MatchOccupied(g)[N - 1 := false] else MatchOccupied(g)
  }

  /** The mask as an integer is nonzero. */
  predicate NonZero(m: Mask) {
    exists p :: 0 <= p < N && m[p]
  }

  /** Number of trailing zero bits: the lowest position set. */
  function CountrZero(m: Mask): (n: nat)
    requires NonZero(m)
    ensures n < N && m[n]
    ensures forall p | 0 <= p < n :: !m[p]
  {
    CountrZeroFrom(m, 0)
  }

  function CountrZeroFrom(m: Mask, from: nat): (n: nat)
    requires exists p :: from <= p < N && m[p]
    requires from < N
    ensures from <= n < N && m[n]
    ensures forall p | from <= p < n :: !m[p]
    decreases N - from
  {
    if m[from] then from else CountrZeroFrom(m, from + 1)
  }

  /** mask &= mask - 1: drops the lowest set bit. */
  function ClearLowest(m: Mask): Mask
    requires NonZero(m)
  {
    m[CountrZero(m) := false]
  }

  /** Number of set bits, the termination measure of loops over a mask. */
  function PopCount(m: seq<bool>): nat {
    if m == [] then 0 else (if m[0] then 1 else 0) + PopCount(m[1..])
  }

  lemma {:induction false} PopCountClear(m: seq<bool>, n: nat)
    requires n < |m| && m[n]
    ensures PopCount(m[n := false]) == PopCount(m) - 1
  {
    var m' := m[n := false];
    if n == 0 {
      assert m'[1..] == m[1..];
    } else {
      assert m'[1..] == m[1..][n - 1 := false];
      PopCountClear(m[1..], n - 1);
    }
  }
}

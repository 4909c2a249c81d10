/** The two-choice bucketed table as values: what one insertion attempt does, and
    insert and grow as the mutually recursive run they are, cut off at a depth
    of nested grow calls. */
module TwoWayModel {
  import opened Words
  import opened Wrappers

  /** The table's parameters: cells in a slot, the empty mark (the largest key), and the hash. */
  datatype Params = Params(bucket: nat, empty: int, hash: int -> Word)

  /** A slot: keys, and the values beside them (meaningless beside the empty mark). */
  datatype Slot = Slot(keys: seq<int>, values: seq<Word>)

  /** 2^lg slots and the entry count. */
  datatype SlotTable = SlotTable(lg: nat, slots: seq<Slot>, size: nat)

  datatype Entry = Entry(key: int, value: Word)

  /** Used cells come first; no key exceeds the empty mark. */
  ghost predicate SlotOk(p: Params, slot: Slot) {
    && |slot.keys| == |slot.values| == p.bucket
    && (forall i | 0 <= i < p.bucket :: slot.keys[i] <= p.empty)
    && (forall i, j | 0 <= i < j < p.bucket && slot.keys[i] == p.empty :: slot.keys[j] == p.empty)
  }

  ghost predicate TableOk(p: Params, t: SlotTable) {
    && p.bucket >= 1 && |t.slots| == Pow2(t.lg)
    && forall s | 0 <= s < |t.slots| :: SlotOk(p, t.slots[s])
  }

  /** The number of used cells, by scanning from cell i. */
  function UsedFrom(p: Params, slot: Slot, i: nat): (n: nat)
    requires SlotOk(p, slot) && i <= p.bucket
    requires forall j | 0 <= j < i :: slot.keys[j] < p.empty
    ensures i <= n <= p.bucket
    ensures forall j | 0 <= j < p.bucket :: slot.keys[j] < p.empty <==> j < n
    decreases p.bucket - i
  {
    if i < p.bucket && slot.keys[i] < p.empty then UsedFrom(p, slot, i + 1) else i
  }

  function Used(p: Params, slot: Slot): (n: nat)
    requires SlotOk(p, slot)
    ensures n <= p.bucket
    ensures forall j | 0 <= j < p.bucket :: slot.keys[j] < p.empty <==> j < n
  {
    UsedFrom(p, slot, 0)
  }

  lemma UsedIs(p: Params, slot: Slot, n: nat)
    requires SlotOk(p, slot) && n <= p.bucket
    requires forall j | 0 <= j < n :: slot.keys[j] < p.empty
    requires n < p.bucket ==> slot.keys[n] >= p.empty
    ensures n == Used(p, slot)
  {
    var used := Used(p, slot);
    assert n < p.bucket ==> !(n < used);
    assert used < p.bucket ==> !(slot.keys[used] < p.empty);
  }

  /** The two slots a key may be in. */
  function Index1(p: Params, k: int, lg: nat): (s: nat)
    ensures s < Pow2(lg)
  {
    MaskIsMod(p.hash(k), lg);
    BitAnd(p.hash(k), Pow2(lg) - 1)
  }

  function Index2(p: Params, k: int, lg: nat): (s: nat)
    ensures s < Pow2(lg)
  {
    MaskIsMod(ShiftRight(p.hash(k), 32), lg);
    BitAnd(ShiftRight(p.hash(k), 32), Pow2(lg) - 1)
  }

  function PutCell(slot: Slot, i: nat, k: int, v: Word): Slot
    requires i < |slot.keys| == |slot.values|
  {
    Slot(slot.keys[i := k], slot.values[i := v])
  }

  /** The table with one more entry, in cell n of slot s. */
  function PutTable(t: SlotTable, s: nat, n: nat, k: int, v: Word): SlotTable
    requires s < |t.slots| && n < |t.slots[s].keys| == |t.slots[s].values|
  {
    SlotTable(t.lg, t.slots[s := PutCell(t.slots[s], n, k, v)], t.size + 1)
  }

  /** One attempt: the emptier of the two slots, the first one on a tie; none if both are full. */
  function TryPlace(p: Params, t: SlotTable, k: int, v: Word): Option<SlotTable>
    requires TableOk(p, t)
  {
    var s1, s2 := Index1(p, k, t.lg), Index2(p, k, t.lg);
    var n1, n2 := Used(p, t.slots[s1]), Used(p, t.slots[s2]);
    if n1 == p.bucket && n2 == p.bucket then None
    else if n1 <= n2 then Some(PutTable(t, s1, n1, k, v))
    else Some(PutTable(t, s2, n2, k, v))
  }

  /** The slots of a key are the low bits of its hash, and of the hash without its low 32 bits. */
  lemma IndexIs(p: Params, k: int, lg: nat)
    ensures Index1(p, k, lg) == p.hash(k) % Pow2(lg)
    ensures Index2(p, k, lg) == p.hash(k) / 0x1_0000_0000 % Pow2(lg)
  {
    hide Pow2, BitAnd, ShiftRight;
    MaskIsMod(p.hash(k), lg);
    MaskIsMod(ShiftRight(p.hash(k), 32), lg);
    ShiftIsDivision(p.hash(k), 32);
    Pow2Word();
  }

  /** Exactly the first n cells of the slot are used. */
  ghost predicate HasUsed(p: Params, slot: Slot, n: nat) {
    && n <= p.bucket == |slot.keys| == |slot.values|
    && forall i | 0 <= i < p.bucket :: slot.keys[i] < p.empty <==> i < n
  }

  /** Of the two slots that k's hash names neither has a free cell. */
  ghost predicate BothFull(p: Params, slots: seq<Slot>, k: int) {
    && |slots| > 0
    && HasUsed(p, slots[p.hash(k) % |slots|], p.bucket)
    && HasUsed(p, slots[p.hash(k) / 0x1_0000_0000 % |slots|], p.bucket)
  }

  /** t' is t with one more entry, in the first free cell, n, of slot s: one of the two slots that k's hash names,
      with no more used cells than the other one; the first of the two if they have as many. */
  ghost predicate PlacedAt(p: Params, t: SlotTable, t': SlotTable, k: int, v: Word, s: nat, n: nat) {
    && s < |t.slots| == Pow2(t.lg) && n < p.bucket && HasUsed(p, t.slots[s], n)
    && (var s1, s2 := p.hash(k) % |t.slots|, p.hash(k) / 0x1_0000_0000 % |t.slots|;
        || (s == s1 && exists n2: nat :: n <= n2 && HasUsed(p, t.slots[s2], n2))
        || (s == s2 && exists n1: nat :: n < n1 && HasUsed(p, t.slots[s1], n1)))
    && t' == SlotTable(t.lg, t.slots[s := Slot(t.slots[s].keys[n := k], t.slots[s].values[n := v])], t.size + 1)
  }

  /** One attempt places the entry in the emptier slot, and fails exactly if both are full. */
  lemma PlacesInEmptier(p: Params, t: SlotTable, k: int, v: Word)
    requires TableOk(p, t)
    ensures var r := TryPlace(p, t, k, v);
            if BothFull(p, t.slots, k) then r.None?
            else r.Some? && exists s: nat, n: nat :: PlacedAt(p, t, r.value, k, v, s, n)
  {
    IndexIs(p, k, t.lg);
    var s1, s2 := p.hash(k) % |t.slots|, p.hash(k) / 0x1_0000_0000 % |t.slots|;
    var n1, n2 := Used(p, t.slots[s1]), Used(p, t.slots[s2]);
    assert HasUsed(p, t.slots[s1], n1) && HasUsed(p, t.slots[s2], n2);
    if BothFull(p, t.slots, k) {
      UsedIs(p, t.slots[s1], p.bucket);
      UsedIs(p, t.slots[s2], p.bucket);
    }
    var r := TryPlace(p, t, k, v);
    if n1 <= n2 && n1 < p.bucket {
      assert PlacedAt(p, t, r.value, k, v, s1, n1);
    } else if n2 < n1 {
      assert PlacedAt(p, t, r.value, k, v, s2, n2);
    }
  }

  function EmptySlot(p: Params): Slot {
    Slot(seq(p.bucket, _ => p.empty), seq(p.bucket, _ => 0))
  }

  /** A slot with every cell marked empty, its values left as they are. */
  function Emptied(p: Params, slot: Slot): Slot {
    Slot(seq(p.bucket, _ => p.empty), slot.values)
  }

  /** Freshly allocated memory; 0 stands for its arbitrary contents. */
  function RawSlot(p: Params): Slot {
    Slot(seq(p.bucket, _ => 0), seq(p.bucket, _ => 0))
  }

  /** The used cells of slot s from cell i on. */
  function SlotEntries(p: Params, slot: Slot, i: nat): seq<Entry>
    requires SlotOk(p, slot)
    decreases p.bucket - i
  {
    if i < p.bucket && slot.keys[i] != p.empty
    then [Entry(slot.keys[i], slot.values[i])] + SlotEntries(p, slot, i + 1)
    else []
  }

  /** All entries from slot s on, slot by slot. */
  function EntriesFrom(p: Params, t: SlotTable, s: nat): seq<Entry>
    requires TableOk(p, t) && s <= |t.slots|
    decreases |t.slots| - s
  {
    if s == |t.slots| then [] else SlotEntries(p, t.slots[s], 0) + EntriesFrom(p, t, s + 1)
  }

  function EmptyTable(p: Params, lg: nat): SlotTable {
    SlotTable(lg, seq(Pow2(lg), _ => EmptySlot(p)), 0)
  }

  ghost predicate InRange(p: Params, es: seq<Entry>) {
    forall i | 0 <= i < |es| :: es[i].key <= p.empty
  }

  /** insert, cut off when more than depth grow calls would be nested. */
  function InsertRun(p: Params, t: SlotTable, e: Entry, depth: nat): (r: Option<SlotTable>)
    requires TableOk(p, t) && e.key <= p.empty
    ensures r.Some? ==> TableOk(p, r.value)
    decreases depth, 0, 0
  {
    PlaceOk(p, t, e);
    var placed := TryPlace(p, t, e.key, e.value);
    if placed.Some? then placed
    else if depth == 0 then None
    else
      var grown := GrowRun(p, t, depth - 1);
      if grown.None? then None else InsertRun(p, grown.value, e, depth - 1)
  }

  /** grow: reinserts every entry into a table of twice the size. */
  function GrowRun(p: Params, t: SlotTable, depth: nat): (r: Option<SlotTable>)
    requires TableOk(p, t)
    ensures r.Some? ==> TableOk(p, r.value)
    decreases depth, 2, 0
  {
    EntriesInRange(p, t, 0);
    ReinsertRun(p, EmptyTable(p, t.lg + 1), EntriesFrom(p, t, 0), depth)
  }

  function ReinsertRun(p: Params, t: SlotTable, es: seq<Entry>, depth: nat): (r: Option<SlotTable>)
    requires TableOk(p, t) && InRange(p, es)
    ensures r.Some? ==> TableOk(p, r.value)
    decreases depth, 1, |es|
  {
    if es == [] then Some(t)
    else
      var r := InsertRun(p, t, es[0], depth);
      if r.None? then None else ReinsertRun(p, r.value, es[1..], depth)
  }

  lemma SlotAt(p: Params, t: SlotTable, s: nat)
    requires TableOk(p, t) && s < |t.slots|
    ensures SlotOk(p, t.slots[s])
  {
  }

  lemma PlaceOk(p: Params, t: SlotTable, e: Entry)
    requires TableOk(p, t) && e.key <= p.empty
    ensures var r := TryPlace(p, t, e.key, e.value); r.Some? ==> TableOk(p, r.value)
  {
  }

  lemma {:induction false} SlotEntriesInRange(p: Params, slot: Slot, i: nat)
    requires SlotOk(p, slot)
    ensures forall j | 0 <= j < |SlotEntries(p, slot, i)| :: SlotEntries(p, slot, i)[j].key < p.empty
    decreases p.bucket - i
  {
    if i < p.bucket && slot.keys[i] != p.empty {
      SlotEntriesInRange(p, slot, i + 1);
    }
  }

  lemma {:induction false} EntriesInRange(p: Params, t: SlotTable, s: nat)
    requires TableOk(p, t) && s <= |t.slots|
    ensures forall j | 0 <= j < |EntriesFrom(p, t, s)| :: EntriesFrom(p, t, s)[j].key < p.empty
    decreases |t.slots| - s
  {
    if s == |t.slots| {
    } else {
      SlotEntriesInRange(p, t.slots[s], 0);
      EntriesInRange(p, t, s + 1);
    }
  }
}

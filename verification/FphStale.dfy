/** The one case in which a relocation goes wrong, on a concrete table: 8 slots, 2 buckets, one
    stored key. Key 0 is the first filler, key 1 the second one and also the stored key, key 2 is
    inserted, and key 3 is drawn as the new second filler. Afterwards lookup finds key 3. */
module FphStale {
  import opened Words
  import opened FphIndex
  import opened FphSlots
  import opened FphState
  import opened FphRelocate
  import opened FphInsert

  const TOP: nat := 0x8000_0000_0000_0000

  ghost function KeyHash(k: nat, seed: Word): Word {
    if k == 1 then TOP + 1
    else if k == 2 then TOP + 0x1000_0000_0000_0001
    else if k == 3 then 0x4000_0000_0000_0000
    else 0
  }

  ghost function Before(): Layout<nat> {
    Layout(KeyHash, 1, TOP + 1, 1, 3, 1, [0, 0])
  }

  ghost function SlotsBefore(): seq<Slot<nat, int>> {
    [Slot(1, 0), Slot(0, 0), Slot(0, 0), Slot(0, 0), Slot(1, 7), Slot(0, 0), Slot(0, 0), Slot(0, 0)]
  }

  ghost function TablesBefore(): SlotTables {
    SlotTables([4, 0, 1, 2, 3, 5, 6, 7], [1, 2, 3, 4, 0, 5, 6, 7], 1)
  }

  ghost function TablesAfter(): SlotTables {
    SlotTables([4, 5, 1, 2, 3, 0, 6, 7], [5, 2, 3, 4, 0, 1, 6, 7], 2)
  }

  /** Offset 4 and optional bit 1. */
  const PARAM: nat := 9

  /** After Vacate and Resettle: the stored key is back in slot 4, where it was. */
  ghost function SlotsResettled(): seq<Slot<nat, int>> { SlotsBefore() }

  ghost function FillersBefore(): Fillers<nat> { Fillers(0, 1, 0) }

  lemma PowersUsed()
    ensures Pow2(1) == 2 && Pow2(3) == 8
    ensures Pow2(61) == 0x2000_0000_0000_0000 && Pow2(63) == TOP
  {
    assert Pow2(1) == 2 && Pow2(2) == 4 && Pow2(3) == 8;
    Pow2Word();
    assert Pow2(64) == 2 * Pow2(63) && Pow2(63) == 2 * Pow2(62) && Pow2(62) == 2 * Pow2(61);
  }

  /** The base slot of a hash word, from its three high bits. */
  lemma BaseSlot(h: Word, q: nat, r: nat)
    requires h == q * 0x2000_0000_0000_0000 + r && r < 0x2000_0000_0000_0000
    ensures MapToIndex(h, 3) == q
  {
    PowersUsed();
    ShiftUnique(h, 61, q, r);
  }

  lemma LowBucket(h: Word)
    requires h < TOP
    ensures MapToIndex(h, 1) == 0
  {
    PowersUsed();
    ShiftUnique(h, 63, 0, h);
  }

  /** All four keys are in bucket 0. */
  lemma Buckets(l: Layout<nat>, k: nat)
    requires LayoutOk(l) && l.hash == KeyHash && l.seed1 == TOP + 1 && l.bucketBits == 1
    ensures BucketOf(l, k) == 0
  {
    hide MapToIndex;
    if k == 1 {
      assert MidHash(TOP + 1, TOP + 1) == 1;
      LowBucket(1);
    } else if k == 2 {
      assert MidHash(TOP + 0x1000_0000_0000_0001, TOP + 1) == 0x1000_0000_0000_0001;
      LowBucket(0x1000_0000_0000_0001);
    } else if k == 3 {
      assert MidHash(0x4000_0000_0000_0000, TOP + 1) == 0x4000_0000_0000_0000;
      LowBucket(0x4000_0000_0000_0000);
    } else {
      assert MidHash(0, TOP + 1) == 0;
      LowBucket(0);
    }
  }

  lemma Layouts()
    ensures LayoutOk(Before()) && LayoutOk(NewLayout(Before(), 0, PARAM))
  {
    PowersUsed();
  }

  /** Slots before: 0, 4 and 4 for keys 0, 1 and 2. */
  lemma PositionsBefore()
    ensures LayoutOk(Before())
    ensures GetSlotPos(Before(), 0) == 0 && GetSlotPos(Before(), 1) == 4 && GetSlotPos(Before(), 2) == 4
  {
    hide GetSlotPos, MapToIndex, Pow2, ReverseMap, BucketOf, LayoutOk;
    Layouts();
    PowersUsed();
    PositionBefore(0, 0, 0);
    PositionBefore(1, 4, 1);
    PositionBefore(2, 4, 0x1000_0000_0000_0001);
  }

  lemma PositionBefore(k: nat, q: nat, r: nat)
    requires k <= 2 && KeyHash(k, 1) == q * 0x2000_0000_0000_0000 + r && r < 0x2000_0000_0000_0000 && q < 8
    requires Pow2(1) == 2 && Pow2(3) == 8
    ensures LayoutOk(Before())
    ensures GetSlotPos(Before(), k) == Wrap(q, 8)
  {
    hide MapToIndex, KeyHash, ReverseMap, AddWord;
    Layouts();
    var l := Before();
    Buckets(l, k);
    assert BitHash(l, k, 0) == KeyHash(k, 1);
    OffsetIsCyclicShift(BitHash(l, k, 0), 0, 3);
    BaseSlot(BitHash(l, k, 0), q, r);
  }

  /** Slots after: 4, 4, 5 and 0 for keys 0, 1, 2 and 3. */
  lemma PositionsAfter()
    ensures LayoutOk(NewLayout(Before(), 0, PARAM))
    ensures var l := NewLayout(Before(), 0, PARAM);
            GetSlotPos(l, 0) == 4 && GetSlotPos(l, 1) == 4 && GetSlotPos(l, 2) == 5 && GetSlotPos(l, 3) == 0
  {
    hide GetSlotPos, MapToIndex, Pow2, ReverseMap, BucketOf, LayoutOk;
    Layouts();
    PowersUsed();
    PositionAfter(0, 0, 0);
    PositionAfter(1, 0, 2);
    PositionAfter(2, 1, 2);
    PositionAfter(3, 4, 0);
  }

  lemma PositionAfter(k: nat, q: nat, r: nat)
    requires k <= 3 && KeyHash(k, 1) * 2 % WORD == q * 0x2000_0000_0000_0000 + r && r < 0x2000_0000_0000_0000 && q < 8
    requires Pow2(1) == 2 && Pow2(3) == 8
    ensures LayoutOk(NewLayout(Before(), 0, PARAM))
    ensures GetSlotPos(NewLayout(Before(), 0, PARAM), k) == Wrap(q + 4, 8)
  {
    hide MapToIndex, KeyHash, ReverseMap, AddWord;
    Layouts();
    var l := NewLayout(Before(), 0, PARAM);
    Buckets(l, k);
    assert BitHash(l, k, 1) == KeyHash(k, 1) * 2 % WORD;
    OffsetIsCyclicShift(BitHash(l, k, 1), 4, 3);
    BaseSlot(BitHash(l, k, 1), q, r);
  }

  lemma StateBefore()
    ensures StateOk(Before(), SlotsBefore(), TablesBefore(), FillersBefore(), map[1 := 7])
  {
    hide GetSlotPos, BucketOf, KeyHash, MapToIndex, Pow2, PermOk, IsFilled, TablesBefore;
    PowersUsed();
    PositionsBefore();
    TablesOk();
    var l, slots, t, f, m := Before(), SlotsBefore(), TablesBefore(), FillersBefore(), map[1 := 7];
    forall s: nat | s < |slots| ensures SlotOk(l, slots, t, f, m, s) {
      assert s == 0 || s == 1 || s == 2 || s == 3 || s == 4 || s == 5 || s == 6 || s == 7;
    }
    forall k | k in m ensures KeyStored(l, slots, t, k) {
    }
  }

  lemma RelocatesHere()
    ensures Relocates(Before(), SlotsBefore(), TablesBefore(), FillersBefore(), map[1 := 7], 0, PARAM, [4], 2,
        TablesAfter())
  {
    hide GetSlotPos, BucketOf, KeyHash, MapToIndex, Pow2, PermOk, IsFilled, TablesBefore, TablesAfter, StateOk;
    PowersUsed();
    StateBefore();
    PositionsBefore();
    PositionsAfter();
    Buckets(Before(), 1);
    Buckets(Before(), 2);
    assert NewPositions(NewLayout(Before(), 0, PARAM), SlotsBefore(), [4]) == [4];
    TablesOk();
  }

  lemma TablesOk()
    ensures PermOk(TablesBefore(), 8) && PermOk(TablesAfter(), 8)
    ensures forall s: nat :: IsFilled(TablesBefore(), s) <==> s == 4
    ensures forall s: nat :: IsFilled(TablesAfter(), s) <==> s == 4 || s == 5
  {
    TableBeforeOk();
    TableAfterOk();
  }

  lemma TableBeforeOk()
    ensures PermOk(TablesBefore(), 8)
    ensures forall s: nat :: IsFilled(TablesBefore(), s) <==> s == 4
  {
    var t := TablesBefore();
    forall i: nat | i < 8
      ensures t.random[i] < 8 && t.place[t.random[i]] == i
      ensures t.place[i] < 8 && t.random[t.place[i]] == i
    {
      assert i == 0 || i == 1 || i == 2 || i == 3 || i == 4 || i == 5 || i == 6 || i == 7;
    }
  }

  lemma TableAfterOk()
    ensures PermOk(TablesAfter(), 8)
    ensures forall s: nat :: IsFilled(TablesAfter(), s) <==> s == 4 || s == 5
  {
    var t := TablesAfter();
    forall i: nat | i < 8
      ensures t.random[i] < 8 && t.place[t.random[i]] == i
      ensures t.place[i] < 8 && t.random[t.place[i]] == i
    {
      assert i == 0 || i == 1 || i == 2 || i == 3 || i == 4 || i == 5 || i == 6 || i == 7;
    }
  }

  /** The tables with the bucket's slot freed: slot 4 comes first in the search. */
  ghost function TablesFreed(): SlotTables
    requires PermOk(TablesBefore(), 8) && IsFilled(TablesBefore(), 4)
  {
    Unfill(TablesBefore(), 8, 4)
  }

  /** The base slots of the bucket's key and the new key: both 4 for the optional bit 0, 0 and 1 for 1. */
  lemma BaseSlots()
    ensures var p0 := BucketPattern(Before(), SlotsBefore(), [4], 2, 0);
            var p1 := BucketPattern(Before(), SlotsBefore(), [4], 2, 1);
            && MapToIndex(p0[0], 3) == MapToIndex(p0[1], 3) == 4
            && MapToIndex(p1[0], 3) == 0 && MapToIndex(p1[1], 3) == 1
  {
    hide MapToIndex;
    assert SlotsBefore()[[4][0]].key == 1;
    BaseSlot(BitHash(Before(), 1, 0), 4, 1);
    BaseSlot(BitHash(Before(), 2, 0), 4, 0x1000_0000_0000_0001);
    BaseSlot(BitHash(Before(), 1, 1), 0, 2);
    BaseSlot(BitHash(Before(), 2, 1), 1, 2);
  }

  /** The search follows: with the optional bit 0 the bucket collides with itself; with 1 it does not, the first
      offset tried is 4, it fits, and it gives PARAM and the tables after. */
  lemma SearchTakesParam()
    ensures PermOk(TablesBefore(), 8) && IsFilled(TablesBefore(), 4)
    ensures BucketFreed(TablesBefore(), TablesFreed(), [4], 8)
    ensures var p0 := BucketPattern(Before(), SlotsBefore(), [4], 2, 0);
            var p1 := BucketPattern(Before(), SlotsBefore(), [4], 2, 1);
            var t := TablesFreed();
            && !DistinctSlots(p0, 3) && DistinctSlots(p1, 3)
            && t.filled < |t.random| && OffsetTo(t.random[t.filled], MapToIndex(p1[0], 3), 8) == 4
            && Fits(t, p1, 4, 3) && PARAM == 2 * 4 + 1
            && Placed(t, p1, 4, 3, TablesAfter())
  {
    hide MapToIndex, BucketPattern, Pow2, BitHash, ReverseMap;
    TablesOk();
    PowersUsed();
    BaseSlots();
    UnfillOk(TablesBefore(), 8, 4);
    var p1 := BucketPattern(Before(), SlotsBefore(), [4], 2, 1);
    OffsetIsCyclicShift(p1[0], 4, 3);
    OffsetIsCyclicShift(p1[1], 4, 3);
    assert TablesFreed().random[0] == 4 && TablesFreed().filled == 0;
  }

  lemma RepairInputHere()
    ensures LayoutOk(Before()) && Pow2(3) == 8
    ensures RepairInput(Before(), SlotsBefore(), TablesBefore(), FillersBefore(), 0, PARAM, [4], SlotsResettled(),
                        Flags(false, true, true, true), 3, true)
    ensures StaleMark(Before(), SlotsBefore(), TablesBefore(), FillersBefore(), 0, PARAM, [4], TablesAfter(), 3)
  {
    hide GetSlotPos, BucketOf, KeyHash, MapToIndex, Pow2, PermOk, IsFilled, TablesBefore, TablesAfter;
    PowersUsed();
    PositionsBefore();
    PositionsAfter();
    Buckets(Before(), 0);
    TablesOk();
    var ps := NewPositions(NewLayout(Before(), 0, PARAM), SlotsBefore(), [4]);
    assert ps == [4];
    assert SlotsBefore()[[4][0]].key == 1;
    assert HasKey(SlotsBefore(), [4], 1);
    assert !HasKey(SlotsBefore(), [4], 0);
    assert Resettled(SlotsBefore(), SlotsResettled(), FillersBefore(), [4], ps, 4);
  }

  /** A correct table, the relocation that SearchTakesParam finds for it, and after it a key that was
      never stored is found: the mark of the first filler's old slot is the new second filler, which
      belongs there. */
  lemma StaleMarkHappens()
    ensures StateOk(Before(), SlotsBefore(), TablesBefore(), FillersBefore(), map[1 := 7])
    ensures Relocates(Before(), SlotsBefore(), TablesBefore(), FillersBefore(), map[1 := 7], 0, PARAM, [4], 2,
        TablesAfter())
    ensures RepairInput(Before(), SlotsBefore(), TablesBefore(), FillersBefore(), 0, PARAM, [4], SlotsResettled(),
                        Flags(false, true, true, true), 3, true)
    ensures var l := NewLayout(Before(), 0, PARAM);
            var r := Repair(l, SlotsResettled(), FillersBefore(), Flags(false, true, true, true), 3, true);
            var slots := AfterRelocation(l, r, 2, 8);
            slots[GetSlotPos(l, 3)].key == 3 && 3 !in map[1 := 7, 2 := 8]
  {
    hide GetSlotPos, BucketOf, KeyHash, MapToIndex, StateOk, Relocates, RepairInput, StaleMark, Pow2;
    StateBefore();
    RelocatesHere();
    RepairInputHere();
    PositionsAfter();
  }
}

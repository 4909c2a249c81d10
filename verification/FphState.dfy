/** The state of the perfect hash table as values: where each key's only slot is,
    what filled and free slots contain, and why lookup by one comparison is exact. */
module FphState {
  import opened Words
  import opened FphIndex
  import opened FphSlots

  /** Everything GetSlotPos depends on: seeds, sizes, and one parameter (offset, bit) for each bucket. */
  datatype Layout<!K> = Layout(
    hash: (K, Word) -> Word,
    seed0: Word, seed1: Word, seed2: Word,
    slotBits: nat, bucketBits: nat,
    bucketP: seq<nat>)

  /** The largest number of slots that a bucket parameter of 32 bits can address. */
  const MAX_SLOT_BITS: nat := 31

  ghost predicate LayoutOk<K>(l: Layout<K>) {
    && 3 <= l.slotBits <= MAX_SLOT_BITS
    && 1 <= l.bucketBits <= 63
    && |l.bucketP| == Pow2(l.bucketBits)
  }

  function MidHash(seed0Hash: Word, seed: Word): Word { (seed0Hash * seed) % WORD }

  function MixSeedAndBit(seed: Word, bit: nat): Word { (seed + bit) % WORD }

  function BucketOf<K>(l: Layout<K>, k: K): (b: nat)
    requires LayoutOk(l)
    ensures b < |l.bucketP|
  {
    MapToIndex(MidHash(l.hash(k, l.seed0), l.seed1), l.bucketBits)
  }

  /** The hash that the offset of the key's bucket is added to. */
  function BitHash<K>(l: Layout<K>, k: K, bit: nat): Word {
    MidHash(l.hash(k, l.seed0), MixSeedAndBit(l.seed2, bit))
  }

  function PosWith<K>(l: Layout<K>, k: K, param: nat): (s: nat)
    requires LayoutOk(l)
    ensures s < Pow2(l.slotBits)
  {
    SlotOf(BitHash(l, k, param % 2), param / 2, l.slotBits)
  }

  /** The only slot that key k can be in. */
  function GetSlotPos<K>(l: Layout<K>, k: K): (s: nat)
    requires LayoutOk(l)
    ensures s < Pow2(l.slotBits)
  {
    PosWith(l, k, l.bucketP[BucketOf(l, k)])
  }

  /** The bucket of a key is given by the high bits of its mixed hash; its slot by those of the hash mixed with the
      bucket's optional bit, shifted cyclically by the bucket's offset. */
  lemma GetSlotPosIs<K>(l: Layout<K>, k: K)
    requires LayoutOk(l) && l.bucketP[BucketOf(l, k)] / 2 < Pow2(l.slotBits)
    ensures var x, param := l.hash(k, l.seed0), l.bucketP[BucketOf(l, k)];
            && BucketOf(l, k) == x * l.seed1 % WORD / Pow2(64 - l.bucketBits)
            && GetSlotPos(l, k) == (x * ((l.seed2 + param % 2) % WORD) % WORD / Pow2(64 - l.slotBits) + param / 2)
                                   % Pow2(l.slotBits)
  {
    hide Pow2, ShiftRight, SlotOf;
    var x, param := l.hash(k, l.seed0), l.bucketP[BucketOf(l, k)];
    ShiftIsDivision(MidHash(x, l.seed1), 64 - l.bucketBits);
    var h := BitHash(l, k, param % 2);
    ShiftIsDivision(h, 64 - l.slotBits);
    SlotOfShift(h, param / 2, l.slotBits);
  }

  /** Changing one bucket's parameter moves only that bucket's keys. */
  lemma OtherBucketsStay<K>(l: Layout<K>, b: nat, param: nat, k: K)
    requires LayoutOk(l) && b < |l.bucketP|
    ensures var l' := l.(bucketP := l.bucketP[b := param]);
            && LayoutOk(l')
            && BucketOf(l', k) == BucketOf(l, k)
            && GetSlotPos(l', k) == if BucketOf(l, k) == b then PosWith(l, k, param) else GetSlotPos(l, k)
  {
  }

  /** A slot: its key, and the value stored with it (meaningless while the slot is free). */
  datatype Slot<K, V> = Slot(key: K, value: V)

  /** The two keys that mark free slots, and the address of the first one's own slot. */
  datatype Fillers<K> = Fillers(first: K, second: K, address: nat)

  /** The key that marks slot s free. */
  function Marker<K>(f: Fillers<K>, s: nat): K {
    if s != f.address then f.first else f.second
  }

  /** IsSlotEmpty: one comparison with the marker. */
  predicate IsSlotEmpty<K(==), V>(slots: seq<Slot<K, V>>, f: Fillers<K>, s: nat)
    requires s < |slots|
  {
    slots[s].key == Marker(f, s)
  }

  ghost predicate FillersOk<K>(l: Layout<K>, f: Fillers<K>)
    requires LayoutOk(l)
  {
    f.address == GetSlotPos(l, f.first) && GetSlotPos(l, f.second) != f.address
  }

  /** A filled slot holds an entry of m in its key's own slot. */
  ghost predicate SlotFilledOk<K, V>(l: Layout<K>, m: map<K, V>, slot: Slot<K, V>, s: nat)
    requires LayoutOk(l)
  {
    GetSlotPos(l, slot.key) == s && slot.key in m && m[slot.key] == slot.value
  }

  ghost predicate SlotOk<K, V>(l: Layout<K>, slots: seq<Slot<K, V>>, t: SlotTables, f: Fillers<K>, m: map<K, V>, s: nat)
    requires LayoutOk(l) && s < |slots|
  {
    if IsFilled(t, s) then SlotFilledOk(l, m, slots[s], s) else slots[s].key == Marker(f, s)
  }

  ghost predicate KeyStored<K, V>(l: Layout<K>, slots: seq<Slot<K, V>>, t: SlotTables, k: K)
    requires LayoutOk(l) && |slots| == Pow2(l.slotBits)
  {
    IsFilled(t, GetSlotPos(l, k)) && slots[GetSlotPos(l, k)].key == k
  }

  /** The slots hold exactly the entries of m, and every free slot carries its marker. */
  ghost predicate StateOk<K, V>(l: Layout<K>, slots: seq<Slot<K, V>>, t: SlotTables, f: Fillers<K>, m: map<K, V>) {
    && LayoutOk(l)
    && PermOk(t, Pow2(l.slotBits))
    && |slots| == Pow2(l.slotBits)
    && FillersOk(l, f)
    && (forall s: nat {:trigger SlotOk(l, slots, t, f, m, s)} | s < |slots| :: SlotOk(l, slots, t, f, m, s))
    && (forall k {:trigger KeyStored(l, slots, t, k)} | k in m :: KeyStored(l, slots, t, k))
  }

  lemma StateParts<K, V>(l: Layout<K>, slots: seq<Slot<K, V>>, t: SlotTables, f: Fillers<K>, m: map<K, V>)
    requires StateOk(l, slots, t, f, m)
    ensures LayoutOk(l) && PermOk(t, |slots|) && |slots| == Pow2(l.slotBits) && f.address == GetSlotPos(l, f.first)
  {
  }

  /** The single comparison of find and contains succeeds for exactly the stored keys, also for a
      key that equals a filler. */
  lemma LookupExact<K, V>(l: Layout<K>, slots: seq<Slot<K, V>>, t: SlotTables, f: Fillers<K>, m: map<K, V>, k: K)
    requires StateOk(l, slots, t, f, m)
    ensures slots[GetSlotPos(l, k)].key == k <==> k in m
    ensures k in m ==> slots[GetSlotPos(l, k)] == Slot(k, m[k])
  {
    var s := GetSlotPos(l, k);
    assert SlotOk(l, slots, t, f, m, s);
    assert k in m ==> KeyStored(l, slots, t, k);
  }

  /** The marker test tells free slots from filled ones exactly, even when a filler is a stored key. */
  lemma EmptyExact<K, V>(l: Layout<K>, slots: seq<Slot<K, V>>, t: SlotTables, f: Fillers<K>, m: map<K, V>, s: nat)
    requires StateOk(l, slots, t, f, m) && s < |slots|
    ensures slots[s].key == Marker(f, s) <==> !IsFilled(t, s)
  {
    assert SlotOk(l, slots, t, f, m, s);
  }

  /** A bucket's own record of its keys: the slots they are in. */
  datatype Bucket = Bucket(entryCnt: nat, keys: seq<nat>)

  ghost predicate NoDuplicates(xs: seq<nat>) {
    forall i, j | 0 <= i < j < |xs| :: xs[i] != xs[j]
  }

  ghost predicate BucketOk<K, V>(l: Layout<K>, slots: seq<Slot<K, V>>, t: SlotTables, bucket: Bucket, b: nat)
    requires LayoutOk(l) && |slots| == |t.place|
  {
    && bucket.entryCnt == |bucket.keys|
    && NoDuplicates(bucket.keys)
    && forall s: nat :: s in bucket.keys <==> IsFilled(t, s) && BucketOf(l, slots[s].key) == b
  }

  /** Every bucket lists exactly its stored keys, each once. */
  ghost predicate BucketsOk<K, V>(l: Layout<K>, slots: seq<Slot<K, V>>, t: SlotTables, buckets: seq<Bucket>)
    requires LayoutOk(l) && |slots| == |t.place|
  {
    && |buckets| == |l.bucketP|
    && forall b: nat {:trigger BucketOk(l, slots, t, buckets[b], b)} | b < |buckets| ::
        BucketOk(l, slots, t, buckets[b], b)
  }

  /** Storing a new key in its own free slot. */
  lemma StoreKeepsState<K, V>(l: Layout<K>, slots: seq<Slot<K, V>>, t: SlotTables, f: Fillers<K>, m: map<K, V>, k: K,
                              v: V)
    requires StateOk(l, slots, t, f, m) && !IsFilled(t, GetSlotPos(l, k))
    ensures k !in m
    ensures var s := GetSlotPos(l, k);
            StateOk(l, slots[s := Slot(k, v)], Fill(t, Pow2(l.slotBits), s), f, m[k := v])
  {
    var s := GetSlotPos(l, k);
    assert k in m ==> KeyStored(l, slots, t, k);
    FillOk(t, Pow2(l.slotBits), s);
    var slots', t', m' := slots[s := Slot(k, v)], Fill(t, Pow2(l.slotBits), s), m[k := v];
    forall s': nat | s' < |slots'| ensures SlotOk(l, slots', t', f, m', s') {
      assert SlotOk(l, slots, t, f, m, s');
    }
    forall k' | k' in m' ensures KeyStored(l, slots', t', k') {
      if k' != k {
        assert KeyStored(l, slots, t, k');
      }
    }
  }

  /** Erasing the entry of a filled slot and writing back the slot's marker. */
  lemma EraseKeepsState<K, V>(l: Layout<K>, slots: seq<Slot<K, V>>, t: SlotTables, f: Fillers<K>, m: map<K, V>,
                              s: nat, junk: V)
    requires StateOk(l, slots, t, f, m) && IsFilled(t, s)
    ensures slots[s].key in m
    ensures StateOk(l, slots[s := Slot(Marker(f, s), junk)], Unfill(t, Pow2(l.slotBits), s), f, m - {slots[s].key})
  {
    var k := slots[s].key;
    assert SlotOk(l, slots, t, f, m, s);
    UnfillOk(t, Pow2(l.slotBits), s);
    var slots', t', m' := slots[s := Slot(Marker(f, s), junk)], Unfill(t, Pow2(l.slotBits), s), m - {k};
    forall s': nat | s' < |slots'| ensures SlotOk(l, slots', t', f, m', s') {
      assert SlotOk(l, slots, t, f, m, s');
    }
    forall k' | k' in m' ensures KeyStored(l, slots', t', k') {
      assert KeyStored(l, slots, t, k');
    }
  }

  /** Clearing: every slot gets its marker. */
  lemma ClearedState<K, V>(l: Layout<K>, slots: seq<Slot<K, V>>, t: SlotTables, f: Fillers<K>)
    requires LayoutOk(l) && PermOk(t, Pow2(l.slotBits)) && |slots| == Pow2(l.slotBits) && FillersOk(l, f)
    requires forall s: nat | s < |slots| :: slots[s].key == Marker(f, s)
    ensures StateOk(l, slots, t.(filled := 0), f, map[])
  {
  }
}

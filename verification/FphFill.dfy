/** The parts of the perfect hash table beside its slots: the remembered first
    slot and the bucket lists, through store, erase and clear. */
module FphFill {
  import opened FiniteSets
  import opened Words
  import opened Wrappers
  import opened FphIndex
  import opened FphSlots
  import opened FphState
  import opened FphIterate

  /** The remembered first slot: a filled one, or none when the table is empty. */
  ghost predicate BeginOk(t: SlotTables, itemNum: nat, begin: Option<nat>) {
    && itemNum == t.filled
    && (begin == None <==> itemNum == 0)
    && (begin.Some? ==> IsFilled(t, begin.value))
  }

  lemma MapMinusSize<K, V>(m: map<K, V>, k: K)
    requires k in m
    ensures |m - {k}| == |m| - 1
  {
    assert (m - {k}).Keys == m.Keys - {k};
  }

  lemma MapPlusSize<K, V>(m: map<K, V>, k: K, v: V)
    requires k !in m
    ensures |m[k := v]| == |m| + 1
  {
    assert m[k := v].Keys == m.Keys + {k};
  }

  /** A filled slot is in its key's bucket list. */
  lemma BucketLists<K, V>(l: Layout<K>, slots: seq<Slot<K, V>>, t: SlotTables, buckets: seq<Bucket>, pos: nat)
    requires LayoutOk(l) && |slots| == |t.place| && BucketsOk(l, slots, t, buckets) && pos < |slots| && IsFilled(t, pos)
    ensures var b := BucketOf(l, slots[pos].key);
            b < |buckets| && pos in buckets[b].keys && NoDuplicates(buckets[b].keys)
  {
    var b := BucketOf(l, slots[pos].key);
    assert BucketOk(l, slots, t, buckets[b], b);
  }

  lemma StateMarks<K, V>(l: Layout<K>, slots: seq<Slot<K, V>>, t: SlotTables, f: Fillers<K>, m: map<K, V>)
    requires StateOk(l, slots, t, f, m)
    ensures MarksExact(slots, t, f)
  {
    forall s: nat | s < |slots| ensures slots[s].key == Marker(f, s) <==> !IsFilled(t, s) {
      EmptyExact(l, slots, t, f, m, s);
    }
  }

  /** The slot after an erased one serves as the new first slot. */
  lemma NextIsBegin(t: SlotTables, m: nat, pos: nat, begin: Option<nat>, d: nat)
    requires PermOk(t, m) && pos < m && !IsFilled(t, pos)
    requires 1 <= d <= m && FreeBetween(t, pos, d)
    requires begin.Some? ==> d < m && IsFilled(t, begin.value)
    requires begin.None? ==> d == m
    ensures BeginOk(t, t.filled, begin)
  {
    FilledCount(t, m);
    if begin.Some? {
      assert begin.value in FilledSet(t);
    } else {
      forall s: nat | s < m ensures !IsFilled(t, s) {
        var e := if s >= pos then s - pos else s + m - pos;
        assert s == After(pos, e, m);
      }
      assert FilledSet(t) == {};
    }
  }

  /** Erases the entry of a slot from a bucket's list. */
  method RemoveSlot(keys: seq<nat>, pos: nat) returns (keys': seq<nat>)
    requires pos in keys && NoDuplicates(keys)
    ensures NoDuplicates(keys') && |keys'| == |keys| - 1
    ensures forall s :: s in keys' <==> s in keys && s != pos
  {
    var i := 0;
    while keys[i] != pos
      invariant 0 <= i < |keys| && pos in keys[i..]
      decreases |keys| - i
    {
      i := i + 1;
    }
    keys' := keys[..i] + keys[i + 1..];
    assert keys == keys[..i] + [keys[i]] + keys[i + 1..];
  }

  lemma EraseKeepsBuckets<K, V>(l: Layout<K>, slots: seq<Slot<K, V>>, t: SlotTables, buckets: seq<Bucket>, pos: nat,
                                keys: seq<nat>, mark: K, junk: V)
    requires LayoutOk(l) && PermOk(t, Pow2(l.slotBits)) && |slots| == Pow2(l.slotBits)
    requires BucketsOk(l, slots, t, buckets)
    requires IsFilled(t, pos)
    requires var before := buckets[BucketOf(l, slots[pos].key)].keys;
             && NoDuplicates(keys) && |keys| == |before| - 1
             && forall s :: s in keys <==> s in before && s != pos
    ensures var b := BucketOf(l, slots[pos].key);
            && buckets[b].entryCnt >= 1
            && BucketsOk(l, slots[pos := Slot(mark, junk)], Unfill(t, Pow2(l.slotBits), pos),
                         buckets[b := Bucket(buckets[b].entryCnt - 1, keys)])
  {
    var b := BucketOf(l, slots[pos].key);
    assert BucketOk(l, slots, t, buckets[b], b);
    assert pos in buckets[b].keys;
    UnfillOk(t, Pow2(l.slotBits), pos);
    var slots', t', buckets' := slots[pos := Slot(mark, junk)], Unfill(t, Pow2(l.slotBits), pos),
                                buckets[b := Bucket(buckets[b].entryCnt - 1, keys)];
    forall b': nat | b' < |buckets'| ensures BucketOk(l, slots', t', buckets'[b'], b') {
      assert BucketOk(l, slots, t, buckets[b'], b');
    }
  }

  /** Everything an erase keeps: the slots, the bucket lists, the exact marks, and the count. */
  lemma ErasedParts<K, V>(l: Layout<K>, slots: seq<Slot<K, V>>, t: SlotTables, f: Fillers<K>, m: map<K, V>,
                          buckets: seq<Bucket>, pos: nat, keys: seq<nat>)
    requires StateOk(l, slots, t, f, m) && LayoutOk(l) && |slots| == Pow2(l.slotBits) && PermOk(t, |slots|)
    requires pos < |slots| && IsFilled(t, pos) && BucketsOk(l, slots, t, buckets)
    requires var before := buckets[BucketOf(l, slots[pos].key)].keys;
             && NoDuplicates(keys) && |keys| == |before| - 1
             && forall s :: s in keys <==> s in before && s != pos
    ensures var k, b := slots[pos].key, BucketOf(l, slots[pos].key);
            var slots', t' := slots[pos := Slot(Marker(f, pos), slots[pos].value)], Unfill(t, |slots|, pos);
            && k in m && |m - {k}| == |m| - 1 && t'.filled == t.filled - 1 && |t'.place| == |slots|
            && StateOk(l, slots', t', f, m - {k}) && MarksExact(slots', t', f)
            && PermOk(t', |slots|) && !IsFilled(t', pos)
            && buckets[b].entryCnt >= 1
            && BucketsOk(l, slots', t', buckets[b := Bucket(buckets[b].entryCnt - 1, keys)])
  {
    hide StateOk, BucketsOk, FillersOk, Unfill, MarksExact, BucketOf, GetSlotPos, Marker, NoDuplicates;
    EraseKeepsState(l, slots, t, f, m, pos, slots[pos].value);
    EraseKeepsBuckets(l, slots, t, buckets, pos, keys, Marker(f, pos), slots[pos].value);
    MapMinusSize(m, slots[pos].key);
    UnfillOk(t, |slots|, pos);
    StateMarks(l, slots[pos := Slot(Marker(f, pos), slots[pos].value)], Unfill(t, |slots|, pos), f,
        m - {slots[pos].key});
  }

  /** Adding a filled slot at the end of its bucket's list. */
  lemma StoreKeepsBuckets<K, V>(l: Layout<K>, slots: seq<Slot<K, V>>, t: SlotTables, buckets: seq<Bucket>, k: K, v: V)
    requires LayoutOk(l) && PermOk(t, Pow2(l.slotBits)) && |slots| == Pow2(l.slotBits)
    requires BucketsOk(l, slots, t, buckets)
    requires !IsFilled(t, GetSlotPos(l, k))
    ensures var s, b := GetSlotPos(l, k), BucketOf(l, k);
            BucketsOk(l, slots[s := Slot(k, v)], Fill(t, Pow2(l.slotBits), s),
                      buckets[b := Bucket(buckets[b].entryCnt + 1, buckets[b].keys + [s])])
  {
    var s, b := GetSlotPos(l, k), BucketOf(l, k);
    FillOk(t, Pow2(l.slotBits), s);
    var slots', t', buckets' := slots[s := Slot(k, v)], Fill(t, Pow2(l.slotBits), s),
                                buckets[b := Bucket(buckets[b].entryCnt + 1, buckets[b].keys + [s])];
    forall b': nat | b' < |buckets'| ensures BucketOk(l, slots', t', buckets'[b'], b') {
      assert BucketOk(l, slots, t, buckets[b'], b');
    }
  }

  /** Writes the first filler into every slot but its own, and the second one there. */
  method MarkAll<K, V>(slots: seq<Slot<K, V>>, f: Fillers<K>, address: nat) returns (slots': seq<Slot<K, V>>)
    requires address < |slots| && address == f.address
    ensures |slots'| == |slots|
    ensures forall s: nat | s < |slots'| :: slots'[s].key == Marker(f, s)
  {
    slots' := slots;
    var i := 0;
    while i < |slots'|
      invariant 0 <= i <= |slots'| == |slots|
      invariant forall s | 0 <= s < i :: slots'[s].key == f.first
    {
      slots' := slots'[i := slots'[i].(key := f.first)];
      i := i + 1;
    }
    slots' := slots'[address := slots'[address].(key := f.second)];
  }
}

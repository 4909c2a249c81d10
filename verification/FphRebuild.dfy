/** From a placement to a table: drawing the fillers, filling the slots, and
    listing each bucket's slots again. */
module FphRebuild {
  import opened FiniteSets
  import opened Words
  import opened FphIndex
  import opened FphSlots
  import opened FphState
  import opened FphIterate
  import opened FphFill
  import opened FphBuild
  import CountSort

  function KeysOf<K, V>(entries: seq<Slot<K, V>>): (keys: seq<K>)
    ensures |keys| == |entries| && forall i | 0 <= i < |entries| :: keys[i] == entries[i].key
  {
    seq(|entries|, i requires 0 <= i < |entries| => entries[i].key)
  }

  ghost predicate DistinctKeys<K, V>(entries: seq<Slot<K, V>>) {
    forall i, j | 0 <= i < j < |entries| :: entries[i].key != entries[j].key
  }

  /** The entries as a map; a later entry replaces an earlier one. */
  ghost function ToMap<K, V>(entries: seq<Slot<K, V>>): map<K, V> {
    if entries == [] then map[]
    else var e := entries[|entries| - 1]; ToMap(entries[..|entries| - 1])[e.key := e.value]
  }

  /** With distinct keys the map has exactly the entries. */
  lemma {:induction false} ToMapEntries<K, V>(entries: seq<Slot<K, V>>)
    requires DistinctKeys(entries)
    ensures forall i | 0 <= i < |entries| ::
            entries[i].key in ToMap(entries) && ToMap(entries)[entries[i].key] == entries[i].value
    ensures forall k | k in ToMap(entries) :: exists i :: 0 <= i < |entries| && entries[i].key == k
    ensures |ToMap(entries)| == |entries|
  {
    if entries == [] {
    } else {
      var rest, e := entries[..|entries| - 1], entries[|entries| - 1];
      ToMapEntries(rest);
      assert e.key !in ToMap(rest);
      MapPlusSize(ToMap(rest), e.key, e.value);
      var m := ToMap(rest)[e.key := e.value];
      assert ToMap(entries) == m;
      hide ToMap, DistinctKeys;
      forall i | 0 <= i < |entries| ensures entries[i].key in m && m[entries[i].key] == entries[i].value {
        if i < |rest| {
          assert rest[i] == entries[i];
        }
      }
      forall k | k in m ensures exists i :: 0 <= i < |entries| && entries[i].key == k {
        if k == e.key {
          assert entries[|entries| - 1].key == k;
        } else {
          var i :| 0 <= i < |rest| && rest[i].key == k;
          assert entries[i].key == k;
        }
      }
    }
  }

  /** Draws the two fillers, with different slots; gives up after 100001 draws that all fall on the first one's slot. */
  method DrawFillers<K(==, 0)>(l: Layout<K>) returns (ok: bool, f: Fillers<K>, ghost draws: seq<K>)
    requires LayoutOk(l)
    ensures ok ==> FillersOk(l, f)
    ensures !ok ==> |draws| == 100001 && forall d | d in draws :: GetSlotPos(l, d) == GetSlotPos(l, f.first)
  {
    var first: K := *;
    var second: K := *;
    var address := GetSlotPos(l, first);
    var tries := 0;
    draws := [];
    while GetSlotPos(l, second) == address
      invariant |draws| == tries <= 100000 && forall d | d in draws :: GetSlotPos(l, d) == address
      decreases 100000 - tries
    {
      draws := draws + [second];
      tries := tries + 1;
      if tries > 100000 {
        return false, Fillers(first, second, address), draws;
      }
      second := *;
    }
    return true, Fillers(first, second, address), draws;
  }

  /** The first n entries are in their slots, and all other slots are marked free. */
  ghost predicate FilledUpTo<K, V>(l: Layout<K>, slots: seq<Slot<K, V>>, f: Fillers<K>, entries: seq<Slot<K, V>>,
                                   n: nat)
    requires LayoutOk(l) && n <= |entries|
  {
    && |slots| == Pow2(l.slotBits)
    && (forall i | 0 <= i < n :: slots[GetSlotPos(l, entries[i].key)] == entries[i])
    && (forall s: nat | s < |slots| && (forall i | 0 <= i < n :: GetSlotPos(l, entries[i].key) != s) ::
          slots[s].key == Marker(f, s))
  }

  /** Marks every slot free and then puts every entry into its slot. */
  method FillSlots<K, V(0)>(l: Layout<K>, f: Fillers<K>, entries: seq<Slot<K, V>>) returns (slots: seq<Slot<K, V>>)
    requires LayoutOk(l) && FillersOk(l, f)
    requires forall i, j | 0 <= i < j < |entries| :: GetSlotPos(l, entries[i].key) != GetSlotPos(l, entries[j].key)
    ensures FilledUpTo(l, slots, f, entries, |entries|)
  {
    var junk: V := *;
    slots := seq(Pow2(l.slotBits), _ => Slot(f.first, junk));
    slots := slots[f.address := slots[f.address].(key := f.second)];
    var i := 0;
    while i < |entries|
      invariant 0 <= i <= |entries| && FilledUpTo(l, slots, f, entries, i)
    {
      slots := slots[GetSlotPos(l, entries[i].key) := entries[i]];
      i := i + 1;
    }
  }

  lemma BuiltParts<K>(l: Layout<K>, keys: seq<K>, order: seq<nat>, t: SlotTables, sizes: seq<nat>)
    requires BuiltLayout(l, keys, order, t, sizes)
    ensures LayoutOk(l) && CountSort.IsOrder(order, |l.bucketP|) && PermOk(t, Pow2(l.slotBits))
    ensures PlacedOk(l, keys, order, |order|, t)
  {
  }

  /** A placement with its slots filled is a correct table of the entries. */
  lemma FilledState<K, V>(l: Layout<K>, entries: seq<Slot<K, V>>, order: seq<nat>, t: SlotTables, sizes: seq<nat>,
                          f: Fillers<K>, slots: seq<Slot<K, V>>)
    requires BuiltLayout(l, KeysOf(entries), order, t, sizes) && FillersOk(l, f)
    requires FilledUpTo(l, slots, f, entries, |entries|)
    ensures DistinctKeys(entries) && StateOk(l, slots, t, f, ToMap(entries)) && t.filled == |entries|
  {
    hide BuiltLayout, PlacedOk, PermOk, GetSlotPos, Pow2, ToMap, IsFilled, FilledUpTo, DistinctKeys;
    BuiltParts(l, KeysOf(entries), order, t, sizes);
    FilledSize(l, slots, f, entries);
    PlacementInjective(l, KeysOf(entries), order, t);
    KeysDistinct(entries);
    ToMapEntries(entries);
    forall s: nat | s < |slots| ensures SlotOk(l, slots, t, f, ToMap(entries), s) {
      FilledSlot(l, entries, t, f, slots, s);
    }
    forall k | k in ToMap(entries) ensures KeyStored(l, slots, t, k) {
      FilledKey(l, entries, t, f, slots, k);
    }
  }

  lemma KeysDistinct<K, V>(entries: seq<Slot<K, V>>)
    requires forall i: nat, j: nat | i < j < |KeysOf(entries)| :: KeysOf(entries)[i] != KeysOf(entries)[j]
    ensures DistinctKeys(entries)
  {
    forall i, j | 0 <= i < j < |entries| ensures entries[i].key != entries[j].key {
      assert KeysOf(entries)[i] != KeysOf(entries)[j];
    }
  }

  lemma FilledSize<K, V>(l: Layout<K>, slots: seq<Slot<K, V>>, f: Fillers<K>, entries: seq<Slot<K, V>>)
    requires LayoutOk(l) && FilledUpTo(l, slots, f, entries, |entries|)
    ensures |slots| == Pow2(l.slotBits)
  {
  }

  lemma FilledKey<K, V>(l: Layout<K>, entries: seq<Slot<K, V>>, t: SlotTables, f: Fillers<K>, slots: seq<Slot<K, V>>,
                        k: K)
    requires LayoutOk(l) && FilledUpTo(l, slots, f, entries, |entries|) && SlotsOf(l, entries, t)
    requires exists i :: 0 <= i < |entries| && entries[i].key == k
    ensures KeyStored(l, slots, t, k)
  {
    hide GetSlotPos, Pow2, IsFilled;
    var i: nat :| i < |entries| && entries[i].key == k;
    assert slots[GetSlotPos(l, entries[i].key)] == entries[i];
    assert GetSlotPos(l, KeysOf(entries)[i]) == GetSlotPos(l, k);
  }

  /** The filled slots are exactly those of the entries. */
  ghost predicate SlotsOf<K, V>(l: Layout<K>, entries: seq<Slot<K, V>>, t: SlotTables)
    requires LayoutOk(l)
  {
    forall s: nat :: IsFilled(t, s) <==> exists i: nat :: i < |entries| && GetSlotPos(l, KeysOf(entries)[i]) == s
  }

  lemma FilledSlot<K, V>(l: Layout<K>, entries: seq<Slot<K, V>>, t: SlotTables, f: Fillers<K>, slots: seq<Slot<K, V>>,
                         s: nat)
    requires LayoutOk(l) && FilledUpTo(l, slots, f, entries, |entries|) && SlotsOf(l, entries, t) && s < |slots|
    requires forall i | 0 <= i < |entries| ::
             entries[i].key in ToMap(entries) && ToMap(entries)[entries[i].key] == entries[i].value
    ensures SlotOk(l, slots, t, f, ToMap(entries), s)
  {
    hide GetSlotPos, Pow2, ToMap, IsFilled;
    var keys := KeysOf(entries);
    if IsFilled(t, s) {
      var i: nat :| i < |keys| && GetSlotPos(l, keys[i]) == s;
      assert slots[GetSlotPos(l, entries[i].key)] == entries[i];
    } else {
      forall i | 0 <= i < |entries| ensures GetSlotPos(l, entries[i].key) != s {
        assert GetSlotPos(l, keys[i]) != s;
      }
    }
  }

  /** The slots among the first n visited that belong to bucket b are listed. */
  ghost predicate Listed<K, V>(l: Layout<K>, slots: seq<Slot<K, V>>, visited: seq<nat>, bucket: seq<nat>, b: nat)
    requires LayoutOk(l) && forall i | 0 <= i < |visited| :: visited[i] < |slots|
  {
    NoDuplicates(bucket) && forall s: nat ::
        s in bucket <==> s in visited && s < |slots| && BucketOf(l, slots[s].key) == b
  }

  /** Lists every visited slot in its key's bucket; the counts are those of the placement. */
  method ListBuckets<K, V>(l: Layout<K>, slots: seq<Slot<K, V>>, visited: seq<nat>, sizes: seq<nat>)
    returns (buckets: seq<Bucket>)
    requires LayoutOk(l) && |sizes| == |l.bucketP| && NoDuplicates(visited)
    requires forall i | 0 <= i < |visited| :: visited[i] < |slots|
    ensures |buckets| == |l.bucketP|
    ensures forall b: nat | b < |buckets| ::
            buckets[b].entryCnt == sizes[b] && Listed(l, slots, visited, buckets[b].keys, b)
  {
    buckets := seq(|sizes|, b requires 0 <= b < |sizes| => Bucket(sizes[b], []));
    var i := 0;
    while i < |visited|
      invariant 0 <= i <= |visited| && |buckets| == |l.bucketP|
      invariant forall b: nat | b < |buckets| ::
                  buckets[b].entryCnt == sizes[b] && Listed(l, slots, visited[..i], buckets[b].keys, b)
    {
      var s := visited[i];
      var b := BucketOf(l, slots[s].key);
      assert s !in visited[..i];
      assert visited[..i + 1] == visited[..i] + [s];
      ghost var before := buckets;
      buckets := buckets[b := buckets[b].(keys := buckets[b].keys + [s])];
      forall b': nat | b' < |buckets| ensures Listed(l, slots, visited[..i + 1], buckets[b'].keys, b') {
        ListStep(l, slots, visited[..i], before[b'].keys, b', s);
      }
      i := i + 1;
    }
    assert visited[..i] == visited;
  }

  lemma ListStep<K, V>(l: Layout<K>, slots: seq<Slot<K, V>>, visited: seq<nat>, bucket: seq<nat>, b: nat, s: nat)
    requires LayoutOk(l) && (forall i | 0 <= i < |visited| :: visited[i] < |slots|)
    requires s < |slots| && s !in visited && Listed(l, slots, visited, bucket, b)
    ensures BucketOf(l, slots[s].key) == b ==> Listed(l, slots, visited + [s], bucket + [s], b)
    ensures BucketOf(l, slots[s].key) != b ==> Listed(l, slots, visited + [s], bucket, b)
  {
    assert forall x :: x in bucket + [s] <==> x in bucket || x == s;
    assert forall x :: x in visited + [s] <==> x in visited || x == s;
  }

  /** The lists are right, and the counts carried over from the placement are their lengths. */
  lemma ListedBuckets<K, V>(l: Layout<K>, entries: seq<Slot<K, V>>, order: seq<nat>, t: SlotTables, sizes: seq<nat>,
                            f: Fillers<K>, slots: seq<Slot<K, V>>, visited: seq<nat>, buckets: seq<Bucket>)
    requires BuiltLayout(l, KeysOf(entries), order, t, sizes) && FillersOk(l, f)
    requires FilledUpTo(l, slots, f, entries, |entries|)
    requires forall s: nat :: s in visited <==> IsFilled(t, s)
    requires forall i | 0 <= i < |visited| :: visited[i] < |slots|
    requires |buckets| == |l.bucketP|
    requires forall b: nat | b < |buckets| ::
            buckets[b].entryCnt == sizes[b] && Listed(l, slots, visited, buckets[b].keys, b)
    ensures BucketsOk(l, slots, t, buckets)
  {
    hide FilledUpTo, Listed, PlacedOk, StateOk, BucketOf, GetSlotPos, IsFilled, FillersOk, CountSort.IsSorted;
    var keys := KeysOf(entries);
    PlacementInjective(l, keys, order, t);
    FilledState(l, entries, order, t, sizes, f, slots);
    StateParts(l, slots, t, f, ToMap(entries));
    forall b: nat | b < |buckets| ensures BucketOk(l, slots, t, buckets[b], b) {
      ListedInBucket(l, slots, t, visited, buckets[b].keys, b);
      NoDuplicatesCount(buckets[b].keys);
      ImageCount(l, keys, KeyIndices(l, keys, b));
      SlotsAreImage(l, entries, t, f, slots, buckets[b].keys, b);
    }
  }

  lemma ListedInBucket<K, V>(l: Layout<K>, slots: seq<Slot<K, V>>, t: SlotTables, visited: seq<nat>, bucket: seq<nat>,
                             b: nat)
    requires LayoutOk(l) && (forall i | 0 <= i < |visited| :: visited[i] < |slots|)
    requires |slots| == |t.place| && forall s: nat :: s in visited <==> IsFilled(t, s)
    requires Listed(l, slots, visited, bucket, b)
    ensures NoDuplicates(bucket)
    ensures forall s: nat :: s in bucket <==> IsFilled(t, s) && BucketOf(l, slots[s].key) == b
  {
  }

  /** The slots listed in a bucket are the slots of its keys. */
  lemma SlotsAreImage<K, V>(l: Layout<K>, entries: seq<Slot<K, V>>, t: SlotTables, f: Fillers<K>,
                            slots: seq<Slot<K, V>>, bucket: seq<nat>, b: nat)
    requires LayoutOk(l) && FillersOk(l, f) && FilledUpTo(l, slots, f, entries, |entries|) && |slots| == |t.place|
    requires forall s: nat ::
            IsFilled(t, s) <==> exists i: nat :: i < |entries| && GetSlotPos(l, KeysOf(entries)[i]) == s
    requires forall s: nat :: s in bucket <==> IsFilled(t, s) && BucketOf(l, slots[s].key) == b
    ensures Elements(bucket) == Image(l, KeysOf(entries), KeyIndices(l, KeysOf(entries), b))
  {
    hide BucketOf, GetSlotPos, IsFilled, FillersOk;
    var keys := KeysOf(entries);
    forall s: nat ensures s in Elements(bucket) <==> s in Image(l, keys, KeyIndices(l, keys, b)) {
      if IsFilled(t, s) {
        var i: nat :| i < |keys| && GetSlotPos(l, keys[i]) == s;
        assert slots[GetSlotPos(l, entries[i].key)] == entries[i];
      }
      if s in Image(l, keys, KeyIndices(l, keys, b)) {
        var i :| i in KeyIndices(l, keys, b) && GetSlotPos(l, keys[i]) == s;
        assert slots[GetSlotPos(l, entries[i].key)] == entries[i];
      }
    }
  }

  ghost function Image<K>(l: Layout<K>, keys: seq<K>, indices: set<nat>): set<nat>
    requires LayoutOk(l) && forall i | i in indices :: i < |keys|
  {
    set i | i in indices :: GetSlotPos(l, keys[i])
  }

  lemma {:induction false} ImageCount<K>(l: Layout<K>, keys: seq<K>, indices: set<nat>)
    requires LayoutOk(l) && forall i | i in indices :: i < |keys|
    requires forall i: nat, j: nat | i < j < |keys| :: GetSlotPos(l, keys[i]) != GetSlotPos(l, keys[j])
    ensures |Image(l, keys, indices)| == |indices|
  {
    if indices == {} {
    } else {
      var i :| i in indices;
      ImageCount(l, keys, indices - {i});
      assert Image(l, keys, indices) == Image(l, keys, indices - {i}) + {GetSlotPos(l, keys[i])};
      forall j | j in indices - {i} ensures GetSlotPos(l, keys[j]) != GetSlotPos(l, keys[i]) {
        assert j < i || i < j;
      }
    }
  }

  /** The number of slots, as index bits, for rehash(count). */
  function RehashBits(itemNum: nat, count: nat): (bits: nat)
    ensures 3 <= bits <= MAX_SLOT_BITS
  {
    var byLoad := RoundUpLog2((5 * itemNum + 2) / 3);
    var wanted := if Pow2(byLoad) < count then RoundUpLog2(count) else byLoad;
    if wanted > MAX_SLOT_BITS then MAX_SLOT_BITS else if wanted < 3 then 3 else wanted
  }

  /** The number of slots is the least power of two from 8 up that is at least count and of which the entries are
      at most 3/5, or 2^31 if that is not enough. */
  lemma RehashBitsIs(itemNum: nat, count: nat)
    ensures var bits := RehashBits(itemNum, count);
            && 3 <= bits <= 31
            && (bits < 31 ==> count <= Pow2(bits) && 5 * itemNum <= 3 * Pow2(bits))
            && forall b: nat {:trigger Pow2(b)} |
                 b >= 3 && count <= Pow2(b) && 5 * itemNum <= 3 * Pow2(b) :: bits <= b
  {
    var least, bits := (5 * itemNum + 2) / 3, RehashBits(itemNum, count);
    Ceil2IsLeast(least);
    Ceil2IsLeast(count);
    forall b: nat {:trigger Pow2(b)} | b >= 3 && count <= Pow2(b) && 5 * itemNum <= 3 * Pow2(b) ensures bits <= b {
      assert Pow2(1) == 2 && least <= Pow2(b);
      RoundUpLeast(least, b);
      RoundUpLeast(count, b);
    }
    Pow2Monotone(RoundUpLog2(least), if RoundUpLog2(least) < bits then bits else RoundUpLog2(least));
    Pow2Monotone(RoundUpLog2(count), if RoundUpLog2(count) < bits then bits else RoundUpLog2(count));
    if bits < 31 && RoundUpLog2(count) > bits {
      Pow2Monotone(RoundUpLog2(least), bits);
    }
  }

  lemma RoundUpLeast(x: nat, b: nat)
    requires x <= Pow2(b) && b >= 1
    ensures RoundUpLog2(x) <= b
  {
    if x >= 2 {
      BitWidthBounds(x - 1);
      if RoundUpLog2(x) > b {
        Pow2Monotone(b, RoundUpLog2(x) - 1);
      }
    }
  }

  lemma BuiltBegin(t: SlotTables, m: nat)
    requires PermOk(t, m) && m >= 1
    ensures t.filled > 0 ==> IsFilled(t, t.random[0])
  {
  }

  lemma VisitedEntry<K, V>(l: Layout<K>, slots: seq<Slot<K, V>>, t: SlotTables, f: Fillers<K>, m: map<K, V>, s: nat)
    requires StateOk(l, slots, t, f, m) && s < |slots| && IsFilled(t, s)
    ensures LayoutOk(l) && SlotFilledOk(l, m, slots[s], s)
  {
    assert SlotOk(l, slots, t, f, m, s);
  }

  lemma EntryVisited<K, V>(l: Layout<K>, slots: seq<Slot<K, V>>, t: SlotTables, f: Fillers<K>, m: map<K, V>,
                           visited: seq<nat>, entries: seq<Slot<K, V>>, k: K)
    requires StateOk(l, slots, t, f, m) && k in m
    requires forall s: nat :: s in visited <==> IsFilled(t, s)
    requires |entries| == |visited|
    requires forall i | 0 <= i < |visited| :: visited[i] < |slots| && entries[i] == slots[visited[i]]
    ensures exists i :: 0 <= i < |entries| && entries[i].key == k
  {
    assert KeyStored(l, slots, t, k);
    var i :| 0 <= i < |visited| && visited[i] == GetSlotPos(l, k);
    assert entries[i].key == k;
  }

  /** The elements of the visited slots are the table's entries. */
  lemma CollectedMap<K, V>(l: Layout<K>, slots: seq<Slot<K, V>>, t: SlotTables, f: Fillers<K>, m: map<K, V>,
                           visited: seq<nat>, entries: seq<Slot<K, V>>)
    requires StateOk(l, slots, t, f, m) && NoDuplicates(visited)
    requires forall s: nat :: s in visited <==> IsFilled(t, s)
    requires |entries| == |visited|
    requires forall i | 0 <= i < |visited| :: visited[i] < |slots| && entries[i] == slots[visited[i]]
    ensures DistinctKeys(entries) && ToMap(entries) == m
  {
    hide StateOk, IsFilled, GetSlotPos, ToMap;
    forall i | 0 <= i < |visited| ensures LayoutOk(l) && SlotFilledOk(l, m, entries[i], visited[i]) {
      assert visited[i] in visited;
      VisitedEntry(l, slots, t, f, m, visited[i]);
    }
    assert DistinctKeys(entries);
    ToMapEntries(entries);
    forall k | k in m ensures k in ToMap(entries) && ToMap(entries)[k] == m[k] {
      EntryVisited(l, slots, t, f, m, visited, entries, k);
    }
    forall k | k in ToMap(entries) ensures k in m {
      var i :| 0 <= i < |entries| && entries[i].key == k;
    }
  }

  lemma AppendEntry<K, V>(entries: seq<Slot<K, V>>, e: Slot<K, V>)
    ensures ToMap(entries + [e]) == ToMap(entries)[e.key := e.value]
  {
    assert (entries + [e])[..|entries|] == entries;
  }

  lemma BucketInRange<K, V>(l: Layout<K>, slots: seq<Slot<K, V>>, t: SlotTables, f: Fillers<K>, m: map<K, V>,
                            bucket: seq<nat>, b: nat)
    requires StateOk(l, slots, t, f, m)
    requires forall s: nat :: s in bucket <==> IsFilled(t, s) && BucketOf(l, slots[s].key) == b
    ensures forall i | 0 <= i < |bucket| :: bucket[i] < |slots| && IsFilled(t, bucket[i])
               && BucketOf(l, slots[bucket[i]].key) == b && GetSlotPos(l, slots[bucket[i]].key) == bucket[i]
  {
    forall i | 0 <= i < |bucket|
      ensures bucket[i] < |slots| && IsFilled(t, bucket[i])
              && BucketOf(l, slots[bucket[i]].key) == b && GetSlotPos(l, slots[bucket[i]].key) == bucket[i]
    {
      assert bucket[i] in bucket;
      assert SlotOk(l, slots, t, f, m, bucket[i]);
    }
  }
}

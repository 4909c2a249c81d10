/** The dynamic perfect hash table: build, lookup, insertion with relocation,
    erase, clear and rehash. Its buffers are sequence fields that the methods
    reassign. */
module FphTable {
  import opened Words
  import opened Wrappers
  import opened FphIndex
  import opened FphSlots
  import opened FphState
  import opened FphRelocate
  import opened FphInsert
  import opened FphIterate
  import opened FphFill
  import opened FphRebuild
  import FphBuild

  datatype Outcome = Inserted | Present | BuildFailed

  /** The table grows when it holds more than 3/5 of its slots. */
  function ShouldExpand(slots: nat): nat { (3 * slots + 4) / 5 }

  /** One more entry would exceed the load, and the table can still grow. */
  predicate ExpansionDue(slotBits: nat, itemNum: nat) {
    itemNum + 1 > ShouldExpand(Pow2(slotBits)) && slotBits < MAX_SLOT_BITS
  }

  lemma LoadIs(slots: nat, n: nat)
    ensures n > ShouldExpand(slots) <==> 5 * n > 3 * slots + 4
  {
  }

  /** The table grows exactly when one more entry would be more than 3/5 of its slots, rounded up, unless it has its
      largest size. It then doubles, and has room for one more entry within the load. */
  lemma ExpandMakesRoom(slotBits: nat, itemNum: nat)
    requires 3 <= slotBits <= 31 && itemNum <= Pow2(slotBits)
    ensures ExpansionDue(slotBits, itemNum) <==> 5 * (itemNum + 1) > 3 * Pow2(slotBits) + 4 && slotBits < 31
    ensures ExpansionDue(slotBits, itemNum) ==>
              && RehashBits(itemNum, Pow2(slotBits) + 1) == slotBits + 1
              && 5 * (itemNum + 1) <= 3 * Pow2(slotBits + 1) + 4
  {
    hide RehashBits, ShouldExpand, Pow2;
    Pow2Double(slotBits);
    LoadIs(Pow2(slotBits), itemNum + 1);
    RehashBitsIs(itemNum, Pow2(slotBits) + 1);
    if slotBits < 31 && RehashBits(itemNum, Pow2(slotBits) + 1) <= slotBits {
      Pow2Monotone(RehashBits(itemNum, Pow2(slotBits) + 1), slotBits);
    }
  }

  class DynamicFphTable<K(==, 0), V(0)> {
    var layout: Layout<K>             // seeds, sizes and bucket_p_array_
    var slot: seq<Slot<K, V>>         // slot_
    var t: SlotTables                 // random_table_, map_table_, filled_count_
    var buckets: seq<Bucket>          // bucket_array_
    var fillers: Fillers<K>
    var firstBucket: nat              // default_fill_key_bucket_index_
    var itemNum: nat
    var begin: Option<nat>
    ghost var Contents: map<K, V>

    /** The state before the first build: no slots. */
    constructor (hash: (K, Word) -> Word)
      ensures layout.hash == hash && itemNum == 0
    {
      var k: K := *;
      layout := Layout(hash, 0, 0, 0, 0, 0, []);
      slot, t, buckets := [], SlotTables([], [], 0), [];
      fillers, firstBucket, itemNum, begin := Fillers(k, k, 0), 0, 0, None;
      Contents := map[];
    }

    /** A new table: the constructor's state and the build of no entries, which makes it a usable empty table
        of eight slots. No search can fail in that build, only the drawing of the fillers. */
    static method Create(hash: (K, Word) -> Word) returns (ok: bool, table: DynamicFphTable<K, V>)
      ensures fresh(table) && table.layout.hash == hash
      ensures ok ==> table.Valid() && table.Contents == map[] && table.layout.slotBits == 3
    {
      table := new DynamicFphTable(hash);
      ok := table.Build([], 3);
    }

    ghost predicate Valid()
      reads this
    {
      && StateOk(layout, slot, t, fillers, Contents)
      && BucketsOk(layout, slot, t, buckets)
      && firstBucket == BucketOf(layout, fillers.first)
      && BeginOk(t, itemNum, begin)
      && itemNum == |Contents|
    }

    /** find: the slot of k if it holds k. */
    method Find(k: K) returns (r: Option<nat>)
      requires Valid()
      ensures r.Some? <==> k in Contents
      ensures r.Some? ==> r.value == GetSlotPos(layout, k) && slot[r.value] == Slot(k, Contents[k])
    {
      LookupExact(layout, slot, t, fillers, Contents, k);
      var pos := GetSlotPos(layout, k);
      r := if slot[pos].key == k then Some(pos) else None;
    }

    method Erase(k: K) returns (erased: nat)
      requires Valid()
      modifies this
      ensures Valid() && layout == old(layout) && fillers == old(fillers)
      ensures erased == if k in old(Contents) then 1 else 0
      ensures Contents == old(Contents) - {k}
    {
      var r := Find(k);
      if r.Some? {
        assert KeyStored(layout, slot, t, k);
        EraseAt(r.value);
        erased := 1;
      } else {
        assert Contents - {k} == Contents;
        erased := 0;
      }
    }

    /** Removes the element of a filled slot and marks the slot free again. */
    method EraseAt(pos: nat)
      requires Valid() && pos < |slot| && IsFilled(t, pos)
      modifies this
      ensures Valid() && layout == old(layout) && fillers == old(fillers)
      ensures t == Unfill(old(t), old(|slot|), pos)
      ensures slot == old(slot)[pos := Slot(Marker(fillers, pos), old(slot[pos].value))]
      ensures old(slot[pos].key in Contents) && Contents == old(Contents) - {old(slot[pos].key)}
      ensures exists d: nat :: 1 <= d <= |slot| && FreeBetween(t, pos, d)
                && (begin == None || begin == Some(After(pos, d, |slot|)))
    {
      hide StateOk, BucketsOk, FillersOk, Unfill, MarksExact, PermOk, IsFilled, BucketOf, GetSlotPos, FreeBetween,
          NoDuplicates;
      StateParts(layout, slot, t, fillers, Contents);
      BucketLists(layout, slot, t, buckets, pos);
      var b := BucketOf(layout, slot[pos].key);
      var bucket := buckets[b];
      var keys := RemoveSlot(bucket.keys, pos);
      ErasedParts(layout, slot, t, fillers, Contents, buckets, pos, keys);
      Contents := Contents - {slot[pos].key};
      buckets := buckets[b := Bucket(bucket.entryCnt - 1, keys)];
      t := Unfill(t, |slot|, pos);
      if pos != GetSlotPos(layout, fillers.first) {
        slot := slot[pos := slot[pos].(key := fillers.first)];
      } else {
        slot := slot[pos := slot[pos].(key := fillers.second)];
      }
      itemNum := itemNum - 1;
      ghost var d;
      begin, d := GetNextSlotAddress(slot, fillers, pos, t);
      NextIsBegin(t, |slot|, pos, begin, d);
    }

    /** Marks every slot free; the seeds, sizes and bucket parameters stay. */
    method Clear()
      requires Valid()
      modifies this
      ensures Valid() && layout == old(layout) && fillers == old(fillers) && t == old(t).(filled := 0)
      ensures Contents == map[]
    {
      slot := MarkAll(slot, fillers, GetSlotPos(layout, fillers.first));
      ClearedState(layout, slot, t, fillers);
      t := t.(filled := 0);
      buckets := seq(|buckets|, _ => Bucket(0, []));
      firstBucket := BucketOf(layout, fillers.first);
      itemNum := 0;
      begin := None;
      Contents := map[];
    }

    /** BuildImp, for a given number of slots. On success the table holds exactly the entries, whose
        keys are distinct. */
    method Build(entries: seq<Slot<K, V>>, slotBits: nat) returns (ok: bool)
      requires 3 <= slotBits <= MAX_SLOT_BITS
      modifies this
      ensures layout.hash == old(layout.hash)
      ensures ok ==> Valid() && DistinctKeys(entries) && Contents == ToMap(entries) && layout.slotBits == slotBits
    {
      var l, t', f, slots, buckets', begin';
      ok, l, t', f, slots, buckets', begin' := BuildTable(layout.hash, entries, slotBits);
      if ok {
        ToMapEntries(entries);
        layout, slot, t, fillers, buckets, begin := l, slots, t', f, buckets', begin';
        itemNum, firstBucket := |entries|, BucketOf(l, f.first);
        Contents := ToMap(entries);
      }
    }

    /** rehash(count): builds again when the number of slots for count, or for the entries, differs
        from the present one. */
    method Rehash(count: nat) returns (ok: bool)
      requires Valid()
      modifies this
      ensures layout.hash == old(layout.hash)
      ensures ok ==> Valid() && Contents == old(Contents) && layout.slotBits == RehashBits(old(itemNum), count)
      ensures RehashBits(old(itemNum), count) == old(layout.slotBits) ==> ok && unchanged(this)
      ensures ok && layout.slotBits < 31 ==>
                count <= Pow2(layout.slotBits) && 5 * |Contents| <= 3 * Pow2(layout.slotBits)
      ensures ok ==> forall b: nat {:trigger Pow2(b)} |
                       b >= 3 && count <= Pow2(b) && 5 * |Contents| <= 3 * Pow2(b) :: layout.slotBits <= b
    {
      RehashBitsIs(itemNum, count);
      var bits := RehashBits(itemNum, count);
      if bits != layout.slotBits {
        var entries := CollectElements(layout, slot, t, fillers, itemNum, begin, Contents);
        ok := Build(entries, bits);
      } else {
        ok := true;
      }
    }

    /** FindOrAlloc and the construction of the element: first more slots if the load asks for them. Without
        that it fails, or leaves a wrong mark, only where InsertNoExpand may. */
    method Insert(k: K, v: V) returns (r: Outcome, ghost stale: bool)
      requires Valid()
      modifies this
      ensures layout.hash == old(layout.hash)
      ensures r.Present? ==> k in old(Contents) && Contents == old(Contents) && !stale
      ensures r.Inserted? ==> k !in old(Contents) && Contents == old(Contents)[k := v]
      ensures r != BuildFailed ==> (Valid() <==> !stale)
      ensures r != BuildFailed ==> layout.slotBits == 31 || 5 * |Contents| <= 3 * Pow2(layout.slotBits) + 4
      ensures 5 * (old(|Contents|) + 1) > 3 * Pow2(old(layout.slotBits)) + 4 && old(layout.slotBits) < 31 ==>
                r.BuildFailed? || layout.slotBits == old(layout.slotBits) + 1
      ensures 5 * (old(|Contents|) + 1) <= 3 * Pow2(old(layout.slotBits)) + 4 || old(layout.slotBits) == 31 ==>
                && (r.BuildFailed? || layout.slotBits == old(layout.slotBits))
                && (k in old(Contents) ==> r.Present? && unchanged(this))
                && (k !in old(Contents) && !old(SlotTaken(k)) ==> r.Inserted? && !stale && layout == old(layout))
                && (r.BuildFailed? ==> old(SlotTaken(k) && (CannotPlace(k) || CannotKeepFiller(k))))
                && (stale ==> old(FillerHazard(k)))
    {
      var ok := Expand();
      if !ok {
        return BuildFailed, false;
      }
      r, stale := InsertNoExpand(k, v);
    }

    /** Rehashes for one more slot than there are, when one more entry would exceed the load. */
    method Expand() returns (ok: bool)
      requires Valid()
      modifies this
      ensures layout.hash == old(layout.hash)
      ensures ok ==> Valid() && Contents == old(Contents)
      ensures ok ==> layout.slotBits == 31 || 5 * (|Contents| + 1) <= 3 * Pow2(layout.slotBits) + 4
      ensures 5 * (old(|Contents|) + 1) > 3 * Pow2(old(layout.slotBits)) + 4 && old(layout.slotBits) < 31 ==>
                ok ==> layout.slotBits == old(layout.slotBits) + 1
      ensures 5 * (old(|Contents|) + 1) <= 3 * Pow2(old(layout.slotBits)) + 4 || old(layout.slotBits) == 31 ==>
                ok && unchanged(this)
    {
      hide StateOk, BucketsOk, RehashBits, Pow2, BucketOf;
      StateParts(layout, slot, t, fillers, Contents);
      ExpandMakesRoom(layout.slotBits, itemNum);
      ok := true;
      if itemNum + 1 > ShouldExpand(Pow2(layout.slotBits)) && layout.slotBits < MAX_SLOT_BITS {
        ok := Rehash(Pow2(layout.slotBits) + 1);
      }
    }

    /** Inserts k where its slot is, relocating its bucket or building again if the slot is taken. It fails only
        in the taken-slot path, if the bucket cannot be placed or a new second filler cannot be drawn. stale
        tells that the relocation left a slot with a wrong mark; that takes a second filler that is itself
        stored in k's bucket, together with a first filler of that bucket that is not stored. */
    method InsertNoExpand(k: K, v: V) returns (r: Outcome, ghost stale: bool)
      requires Valid()
      modifies this
      ensures layout.hash == old(layout.hash)
      ensures r.Present? <==> k in old(Contents)
      ensures r.Present? ==> unchanged(this) && !stale
      ensures r.Inserted? ==> k !in old(Contents) && Contents == old(Contents)[k := v]
      ensures k !in old(Contents) && !old(SlotTaken(k)) ==>
              r.Inserted? && !stale && layout == old(layout) && fillers == old(fillers)
      ensures r.BuildFailed? ==> old(SlotTaken(k) && (CannotPlace(k) || CannotKeepFiller(k)))
      ensures r != BuildFailed ==> (Valid() <==> !stale)
      ensures r != BuildFailed ==> layout.slotBits == old(layout.slotBits)
      ensures stale ==> old(FillerHazard(k))
    {
      LookupExact(layout, slot, t, fillers, Contents, k);
      var pos := GetSlotPos(layout, k);
      if slot[pos].key == k {
        return Present, false;
      }
      EmptyExact(layout, slot, t, fillers, Contents, pos);
      if IsSlotEmpty(slot, fillers, pos) {
        InsertFast(k, v);
        r, stale := Inserted, false;
      } else {
        r, stale := InsertSlow(k, v);
      }
    }

    /** The slot of k is filled. */
    ghost predicate SlotTaken(k: K)
      reads this
    {
      LayoutOk(layout) && IsFilled(t, GetSlotPos(layout, k))
    }

    /** No offset fits k's bucket with k in it. */
    ghost predicate CannotPlace(k: K)
      reads this
    {
      && LayoutOk(layout) && BucketOf(layout, k) < |buckets|
      && NoPlace(layout, slot, t, buckets[BucketOf(layout, k)].keys, k)
    }

    /** A place of k's bucket with k in it may bring the fillers' slots together. */
    ghost predicate CannotKeepFiller(k: K)
      reads this
    {
      && LayoutOk(layout) && BucketOf(layout, k) < |buckets|
      && MoveNeedsFiller(layout, slot, t, fillers, Contents, buckets[BucketOf(layout, k)].keys, k)
    }

    /** Only where this holds can the operation fail: it builds anew, or cannot relocate a bucket. */
    ghost predicate MayFail(op: Op<K, V>)
      reads this
    {
      match op
      case InsertOp(k, _) =>
        || (5 * (|Contents| + 1) > 3 * Pow2(layout.slotBits) + 4 && layout.slotBits < 31)
        || (k !in Contents && SlotTaken(k) && (CannotPlace(k) || CannotKeepFiller(k)))
      case RehashOp(count) => RehashBits(itemNum, count) != layout.slotBits
      case _ => false
    }

    /** The condition without which no insertion of k can leave a wrong mark. */
    ghost predicate FillerHazard(k: K)
      reads this
    {
      && LayoutOk(layout)
      && k !in Contents && fillers.second in Contents && fillers.first !in Contents
      && BucketOf(layout, fillers.first) == BucketOf(layout, fillers.second) == BucketOf(layout, k)
      && IsFilled(t, GetSlotPos(layout, k)) && !IsFilled(t, fillers.address)
    }

    /** The same condition, as a caller can test it. */
    method TestHazard(k: K) returns (hazard: bool)
      requires Valid()
      ensures hazard <==> FillerHazard(k)
    {
      var first := Find(fillers.first);
      var second := Find(fillers.second);
      var present := Find(k);
      EmptyExact(layout, slot, t, fillers, Contents, GetSlotPos(layout, k));
      EmptyExact(layout, slot, t, fillers, Contents, fillers.address);
      hazard := second.Some? && first.None? && present.None?
                && !IsSlotEmpty(slot, fillers, GetSlotPos(layout, k)) && IsSlotEmpty(slot, fillers, fillers.address)
                && BucketOf(layout, fillers.first) == BucketOf(layout, fillers.second)
                && BucketOf(layout, fillers.first) == BucketOf(layout, k);
    }

    /** The key's slot is free: it is filled, and added to its bucket's list. */
    method InsertFast(k: K, v: V)
      requires Valid() && !IsFilled(t, GetSlotPos(layout, k))
      modifies this
      ensures Valid() && layout == old(layout) && fillers == old(fillers)
      ensures t == Fill(old(t), old(|slot|), GetSlotPos(layout, k))
      ensures slot == old(slot)[GetSlotPos(layout, k) := Slot(k, v)] && begin == Some(GetSlotPos(layout, k))
      ensures k !in old(Contents) && Contents == old(Contents)[k := v]
    {
      var pos, b := GetSlotPos(layout, k), BucketOf(layout, k);
      StoreKeepsState(layout, slot, t, fillers, Contents, k, v);
      StoreKeepsBuckets(layout, slot, t, buckets, k, v);
      MapPlusSize(Contents, k, v);
      FillOk(t, |slot|, pos);
      t := Fill(t, |slot|, pos);
      buckets := buckets[b := Bucket(buckets[b].entryCnt + 1, buckets[b].keys + [pos])];
      begin := Some(pos);
      itemNum := itemNum + 1;
      slot := slot[pos := Slot(k, v)];
      Contents := Contents[k := v];
    }

    /** The key's slot is taken: relocate the key's bucket, or build everything again if it cannot be placed. */
    method InsertSlow(k: K, v: V) returns (r: Outcome, ghost stale: bool)
      requires Valid() && k !in Contents && SlotTaken(k)
      modifies this
      ensures layout.hash == old(layout.hash)
      ensures r != Present
      ensures r.Inserted? ==> Contents == old(Contents)[k := v] && (Valid() <==> !stale)
      ensures r.Inserted? ==> layout.slotBits == old(layout.slotBits)
      ensures r.Inserted? && !old(CannotPlace(k)) ==>
                exists param: nat :: layout == NewLayout(old(layout), BucketOf(old(layout), k), param)
                                     && old(layout.bucketP[BucketOf(layout, k)]) % 2 <= param % 2
      ensures r.Inserted? && !old(CannotPlace(k)) ==> LayoutOk(layout) && begin == Some(GetSlotPos(layout, k))
      ensures r.BuildFailed? ==> old(CannotPlace(k) || CannotKeepFiller(k))
      ensures stale ==> old(FillerHazard(k))
    {
      var b := BucketOf(layout, k);
      assert BucketOk(layout, slot, t, buckets[b], b);
      var bucket := buckets[b].keys;
      BucketInRange(layout, slot, t, fillers, Contents, bucket, b);
      var t1 := FreeBucket(layout, slot, t, bucket, b);
      var found, param, t' := SearchParam(layout, slot, t1, bucket, k, layout.bucketP[b] % 2);
      if found {
        FoundRelocates(layout, slot, t, fillers, Contents, b, bucket, k, t1, param, t');
        r, stale := Relocate(k, v, b, bucket, param, t');
      } else {
        stale := false;
        var entries := CollectElements(layout, slot, t, fillers, itemNum, begin, Contents);
        AppendEntry(entries, Slot(k, v));
        var ok := Build(entries + [Slot(k, v)], layout.slotBits);
        r := if ok then Inserted else BuildFailed;
      }
    }

    /** Moves the bucket to its new parameter, repairs the fillers, and stores the new key. */
    method Relocate(k: K, v: V, b: nat, bucket: seq<nat>, param: nat, t': SlotTables)
      returns (r: Outcome, ghost stale: bool)
      requires Valid() && Relocates(layout, slot, t, fillers, Contents, b, param, bucket, k, t')
      requires b < |buckets| && buckets[b].keys == bucket && t'.filled == t.filled + 1
      modifies this
      ensures layout.hash == old(layout.hash)
      ensures r != Present
      ensures r.Inserted? ==> Contents == old(Contents)[k := v] && (Valid() <==> !stale)
      ensures r.Inserted? ==> layout == NewLayout(old(layout), b, param)
      ensures r.Inserted? ==> LayoutOk(layout) && begin == Some(GetSlotPos(layout, k))
      ensures r.BuildFailed? ==> NeedsNewSecond(NewLayout(old(layout), b, param), old(fillers))
      ensures stale ==> old(fillers.second in Contents && fillers.first !in Contents && !IsFilled(t, fillers.address)
                            && BucketOf(layout, fillers.first) == BucketOf(layout, fillers.second) == b)
    {
      var ok, l', slots', f', ps;
      ok, l', slots', f', ps, stale :=
        RelocateBucket(layout, slot, t, fillers, firstBucket, b, param, bucket, k, v, Contents, t', buckets);
      if !ok {
        return BuildFailed, false;
      }
      MapPlusSize(Contents, k, v);
      layout, slot, t, fillers := l', slots', t', f';
      buckets := buckets[b := Bucket(|ps|, ps)];
      begin := Some(GetSlotPos(l', k));
      itemNum := itemNum + 1;
      Contents := Contents[k := v];
      r := Inserted;
    }
  }

  /** The work of a relocation: vacate, resettle, draw a new second filler if needed, repair, store. */
  method RelocateBucket<K(==, 0), V>(l: Layout<K>, slots: seq<Slot<K, V>>, ghost t: SlotTables, f: Fillers<K>,
                                     firstBucket: nat, b: nat, param: nat, bucket: seq<nat>, k: K, v: V,
                                     ghost m: map<K, V>, ghost t': SlotTables, ghost buckets: seq<Bucket>)
    returns (ok: bool, l': Layout<K>, slots': seq<Slot<K, V>>, f': Fillers<K>, ps: seq<nat>, ghost stale: bool)
    requires Relocates(l, slots, t, f, m, b, param, bucket, k, t')
    requires BucketsOk(l, slots, t, buckets) && buckets[b].keys == bucket && firstBucket == BucketOf(l, f.first)
    ensures l' == NewLayout(l, b, param) && LayoutOk(l')
    ensures !ok ==> NeedsNewSecond(l', f)
    ensures ok ==> (StateOk(l', slots', t', f', m[k := v]) <==> !stale)
    ensures ok ==> |slots'| == |t'.place| && BucketsOk(l', slots', t', buckets[b := Bucket(|ps|, ps)])
    ensures ok ==> firstBucket == BucketOf(l', f'.first) && IsFilled(t', GetSlotPos(l', k))
    ensures stale ==> f.second in m && f.first !in m && !IsFilled(t, f.address)
                      && BucketOf(l, f.first) == BucketOf(l, f.second) == b
  {
    l', stale := NewLayout(l, b, param), false;
    ps := NewPositions(l', slots, bucket);
    EmptyExact(l, slots, t, f, m, f.address);
    var slots1, buffer, flags := Vacate(slots, bucket, f, GetSlotPos(l', f.first), IsSlotEmpty(slots, f, f.address));
    var slots2, oldEmpty := Resettle(slots1, buffer, ps, f.address, flags.oldFirstPosEmpty);
    flags := flags.(oldFirstPosEmpty := oldEmpty);
    assert Resettled(slots, slots2, f, bucket, ps, GetSlotPos(l', f.first));
    assert FlagsOk(slots, t, f, bucket, ps, GetSlotPos(l', f.first), flags);
    ok, slots', f' := true, slots, f;
    var second := f.second;
    if NeedsNewSecond(l', f) {
      ghost var draws;
      ok, second, draws := DrawSecond(l', slots2, f);
      if !ok {
        return;
      }
    }
    slots', f', stale := RepairAndStore(l, slots, t, f, m, b, param, bucket, k, v, t', slots2, flags, second,
                                        b == firstBucket && param != l.bucketP[b], buckets);
    ps := ps + [GetSlotPos(l', k)];
  }

  method RepairAndStore<K(==, 0), V>(l: Layout<K>, ghost slots: seq<Slot<K, V>>, ghost t: SlotTables, f: Fillers<K>,
                                     ghost m: map<K, V>, b: nat, param: nat, ghost bucket: seq<nat>, k: K, v: V,
                                     ghost t': SlotTables, slots2: seq<Slot<K, V>>, flags: Flags, second: K,
                                     moved: bool, ghost buckets: seq<Bucket>)
    returns (slots': seq<Slot<K, V>>, f': Fillers<K>, ghost stale: bool)
    requires Relocates(l, slots, t, f, m, b, param, bucket, k, t')
    requires RepairInput(l, slots, t, f, b, param, bucket, slots2, flags, second, moved)
    requires BucketsOk(l, slots, t, buckets) && buckets[b].keys == bucket
    ensures var l' := NewLayout(l, b, param);
            && (StateOk(l', slots', t', f', m[k := v]) <==> !stale)
            && |slots'| == |t'.place|
            && (var ps := NewPositions(l', slots, bucket) + [GetSlotPos(l', k)];
                BucketsOk(l', slots', t', buckets[b := Bucket(|ps|, ps)]))
            && BucketOf(l, f.first) == BucketOf(l', f'.first)
    ensures stale ==> f.second in m && f.first !in m && !IsFilled(t, f.address)
                      && BucketOf(l, f.first) == BucketOf(l, f.second) == b
  {
    RelocationExact(l, slots, t, f, m, b, param, bucket, k, v, t', slots2, flags, second, moved);
    RelocatedBuckets(l, slots, t, f, m, b, param, bucket, k, v, t', slots2, flags, second, moved, buckets);
    RepairFillers(l, slots, t, f, m, b, param, bucket, k, t', slots2, flags, second, moved);
    HasKeyMeansStored(l, slots, t, f, m, b, bucket, f.second);
    HasKeyMeansStored(l, slots, t, f, m, b, bucket, f.first);
    OtherBucketsStay(l, b, param, f.first);
    stale := StaleMark(l, slots, t, f, b, param, bucket, t', second);
    var l' := NewLayout(l, b, param);
    var repaired := Repair(l', slots2, f, flags, second, moved);
    slots', f' := AfterRelocation(l', repaired, k, v), repaired.fillers;
  }

  /** Searches seeds, places all buckets, draws the fillers, fills the slots, and lists the buckets. */
  method BuildTable<K(==, 0), V(0)>(hash: (K, Word) -> Word, entries: seq<Slot<K, V>>, slotBits: nat)
    returns (ok: bool, l: Layout<K>, t: SlotTables, f: Fillers<K>, slots: seq<Slot<K, V>>, buckets: seq<Bucket>,
             begin: Option<nat>)
    requires 3 <= slotBits <= MAX_SLOT_BITS
    ensures ok ==> l.hash == hash && l.slotBits == slotBits && DistinctKeys(entries)
    ensures ok ==> StateOk(l, slots, t, f, ToMap(entries)) && BucketsOk(l, slots, t, buckets)
    ensures ok ==> BeginOk(t, |entries|, begin)
  {
    var bucketBits: nat := *;
    bucketBits := 1 + bucketBits % 63;
    var sizes;
    ghost var order;
    ghost var tried;
    ok, l, t, sizes, order, tried := FphBuild.SearchSeeds(hash, KeysOf(entries), slotBits, bucketBits);
    f, slots, buckets, begin := *, [], [], None;
    if !ok {
      return;
    }
    ghost var draws;
    ok, f, draws := DrawFillers(l);
    if !ok {
      return;
    }
    slots, begin, buckets := FillTable(l, entries, t, f, sizes, order);
  }

  method FillTable<K(==), V(0)>(l: Layout<K>, entries: seq<Slot<K, V>>, t: SlotTables, f: Fillers<K>, sizes: seq<nat>,
                                ghost order: seq<nat>)
    returns (slots: seq<Slot<K, V>>, begin: Option<nat>, buckets: seq<Bucket>)
    requires FphBuild.BuiltLayout(l, KeysOf(entries), order, t, sizes) && FillersOk(l, f)
    ensures DistinctKeys(entries) && StateOk(l, slots, t, f, ToMap(entries)) && BucketsOk(l, slots, t, buckets)
    ensures BeginOk(t, |entries|, begin)
  {
    FphBuild.PlacementInjective(l, KeysOf(entries), order, t);
    slots := FillSlots(l, f, entries);
    FilledState(l, entries, order, t, sizes, f, slots);
    assert LayoutOk(l) && PermOk(t, |slots|) && |slots| >= 1 && t.filled == |entries|;
    hide StateOk, MarksExact, FilledUpTo, FphBuild.BuiltLayout, ToMap, DistinctKeys;
    StateMarks(l, slots, t, f, ToMap(entries));
    BuiltBegin(t, |slots|);
    begin := if |entries| > 0 then Some(t.random[0]) else None;
    var visited := CollectSlots(slots, f, begin, |entries|, t);
    buckets := ListBuckets(l, slots, visited, sizes);
    ListedBuckets(l, entries, order, t, sizes, f, slots, visited, buckets);
  }

  /** All elements, in iteration order. */
  method CollectElements<K(==), V>(ghost l: Layout<K>, slots: seq<Slot<K, V>>, ghost t: SlotTables, f: Fillers<K>,
                                   itemNum: nat, begin: Option<nat>, ghost m: map<K, V>)
    returns (entries: seq<Slot<K, V>>)
    requires StateOk(l, slots, t, f, m) && BeginOk(t, itemNum, begin)
    ensures DistinctKeys(entries) && ToMap(entries) == m
  {
    assert LayoutOk(l) && PermOk(t, |slots|);
    hide StateOk, MarksExact, LayoutOk;
    StateMarks(l, slots, t, f, m);
    var visited := CollectSlots(slots, f, begin, itemNum, t);
    entries := seq(|visited|, i requires 0 <= i < |visited| => slots[visited[i]]);
    CollectedMap(l, slots, t, f, m, visited, entries);
  }

  /** Draws a new second filler; gives up after 10001 draws that will not do. */
  method DrawSecond<K(==, 0), V>(l: Layout<K>, slots: seq<Slot<K, V>>, f: Fillers<K>)
    returns (ok: bool, second: K, ghost draws: seq<K>)
    requires LayoutOk(l) && f.address < |slots|
    ensures ok ==> GoodSecond(l, slots, f, second)
    ensures !ok ==> |draws| == 10001 && forall d | d in draws :: !GoodSecond(l, slots, f, d)
  {
    second := *;
    var tries := 0;
    draws := [];
    while !GoodSecond(l, slots, f, second)
      invariant |draws| == tries <= 10000 && forall d | d in draws :: !GoodSecond(l, slots, f, d)
      decreases 10000 - tries
    {
      draws := draws + [second];
      second := *;
      tries := tries + 1;
      if tries > 10000 {
        return false, second, draws;
      }
    }
    ok := true;
  }

  /** The operations of a run, and what they do to a finite map. */
  datatype Op<K, V> = InsertOp(key: K, value: V) | EraseOp(key: K) | ClearOp | RehashOp(count: nat)

  ghost function ApplyOp<K, V>(m: map<K, V>, op: Op<K, V>): map<K, V> {
    match op
    case InsertOp(k, v) => if k in m then m else m[k := v]
    case EraseOp(k) => m - {k}
    case ClearOp => map[]
    case RehashOp(_) => m
  }

  ghost function ApplyAll<K, V>(m: map<K, V>, ops: seq<Op<K, V>>): map<K, V> {
    if ops == [] then m else ApplyOp(ApplyAll(m, ops[..|ops| - 1]), ops[|ops| - 1])
  }

  /** Operation i of a run is no rehash, and if it is an insertion, one more entry than there are before it is
      within 3/5 of the slots, rounded up. */
  ghost predicate KeepsSlots<K, V>(m: map<K, V>, ops: seq<Op<K, V>>, i: nat, slots: nat)
    requires i < |ops|
  {
    !ops[i].RehashOp? && (ops[i].InsertOp? ==> 5 * (|ApplyAll(m, ops[..i])| + 1) <= 3 * slots + 4)
  }

  /** Every run refines the map after the same operations, up to the first failed build or the first
      insertion that meets the hazard. done counts the completed operations. The load stays within 3/5, rounded
      up, and no slots are added before an insertion would exceed it. */
  method Run<K(==, 0), V(0)>(table: DynamicFphTable<K, V>, ops: seq<Op<K, V>>) returns (done: nat, failed: bool)
    requires table.Valid()
    modifies table
    ensures done <= |ops|
    ensures failed ==> done < |ops| && (ops[done].InsertOp? || ops[done].RehashOp?)
    ensures !failed ==> table.Valid() && table.Contents == ApplyAll(old(table.Contents), ops[..done])
    ensures !failed && done < |ops| ==> ops[done].InsertOp? && table.FillerHazard(ops[done].key)
    ensures !failed &&
              old(table.layout.slotBits == 31 || 5 * |table.Contents| <= 3 * Pow2(table.layout.slotBits) + 4) ==>
              table.layout.slotBits == 31 || 5 * |table.Contents| <= 3 * Pow2(table.layout.slotBits) + 4
    ensures !failed && (forall i | 0 <= i < |ops| && i <= done ::
                          KeepsSlots(old(table.Contents), ops, i, Pow2(old(table.layout.slotBits)))) ==>
              table.layout.slotBits == old(table.layout.slotBits)
  {
    hide Pow2, ApplyOp, StateOk, BucketsOk, BucketOf, BeginOk;
    done, failed := 0, false;
    ghost var m0, bits0, kept := table.Contents, table.layout.slotBits, true;
    while done < |ops|
      invariant done <= |ops| && table.Valid()
      invariant table.Contents == ApplyAll(m0, ops[..done])
      invariant bits0 == 31 || 5 * |m0| <= 3 * Pow2(bits0) + 4 ==>
                  table.layout.slotBits == 31 || 5 * |table.Contents| <= 3 * Pow2(table.layout.slotBits) + 4
      invariant kept ==> table.layout.slotBits == bits0
      invariant !kept ==> exists i :: 0 <= i < done && !KeepsSlots(m0, ops, i, Pow2(bits0))
    {
      kept := kept && KeepsSlots(m0, ops, done, Pow2(bits0));
      assert ops[..done + 1][..done] == ops[..done];
      var ok, hazard := RunStep(table, ops[done]);
      if !ok {
        return done, true;
      }
      if hazard {
        return done, false;
      }
      done := done + 1;
    }
    assert ops[..done] == ops;
  }

  lemma ErasedSize<K, V>(m: map<K, V>, k: K)
    ensures |m - {k}| <= |m|
  {
    if k in m {
      MapMinusSize(m, k);
    } else {
      assert m - {k} == m;
    }
  }

  method RunStep<K(==, 0), V(0)>(table: DynamicFphTable<K, V>, op: Op<K, V>) returns (ok: bool, hazard: bool)
    requires table.Valid()
    modifies table
    ensures !ok ==> old(table.MayFail(op))
    ensures ok ==> table.Valid()
    ensures ok && !hazard ==> table.Contents == ApplyOp(old(table.Contents), op)
    ensures ok && hazard ==> op.InsertOp? && table.FillerHazard(op.key) && table.Contents == old(table.Contents)
    ensures ok && (op.InsertOp? || op.RehashOp?) ==>
              table.layout.slotBits == 31 || 5 * |table.Contents| <= 3 * Pow2(table.layout.slotBits) + 4
    ensures ok && !op.RehashOp? &&
              (op.InsertOp? ==> 5 * (old(|table.Contents|) + 1) <= 3 * Pow2(old(table.layout.slotBits)) + 4) ==>
              table.layout.slotBits == old(table.layout.slotBits)
    ensures |table.Contents| <= old(|table.Contents|) || op.InsertOp? || !ok
  {
    hide Pow2, StateOk, BucketsOk, BeginOk, BucketOf, GetSlotPos, NoPlace, MoveNeedsFiller;
    StateParts(table.layout, table.slot, table.t, table.fillers, table.Contents);
    ok, hazard := true, false;
    match op {
      case InsertOp(k, v) =>
        ok := table.Expand();
        if ok {
          hazard := table.TestHazard(k);
          if !hazard {
            var r;
            ghost var stale;
            r, stale := table.InsertNoExpand(k, v);
            ok := r != BuildFailed;
          }
        }
      case EraseOp(k) =>
        ErasedSize(table.Contents, k);
        var _ := table.Erase(k);
      case ClearOp => table.Clear();
      case RehashOp(count) => ok := table.Rehash(count);
    }
  }
}

/** Finding a new place for a bucket together with one new key. */
module FphInsert {
  import opened Words
  import opened Wrappers
  import opened FphIndex
  import opened FphSlots
  import opened FphState
  import opened FphRelocate

  /** The hashes of a bucket's stored keys and of the new key, for a choice of the optional bit. */
  function BucketPattern<K, V>(l: Layout<K>, slots: seq<Slot<K, V>>, bucket: seq<nat>, k: K, bit: nat): (p: seq<Word>)
    requires forall i | 0 <= i < |bucket| :: bucket[i] < |slots|
    ensures |p| == |bucket| + 1 && p[|bucket|] == BitHash(l, k, bit)
    ensures forall i | 0 <= i < |bucket| :: p[i] == BitHash(l, slots[bucket[i]].key, bit)
  {
    seq(|bucket|, i requires 0 <= i < |bucket| => BitHash(l, slots[bucket[i]].key, bit)) + [BitHash(l, k, bit)]
  }

  /** t1 is t with the bucket's slots freed. */
  ghost predicate BucketFreed(t: SlotTables, t1: SlotTables, bucket: seq<nat>, m: nat) {
    && PermOk(t1, m) && t1.filled + |bucket| == t.filled
    && forall s: nat :: IsFilled(t1, s) <==> IsFilled(t, s) && s !in bucket
  }

  /** Frees the slots of the bucket's stored keys, found from their hashes and the bucket's parameter. */
  method FreeBucket<K, V>(l: Layout<K>, slots: seq<Slot<K, V>>, t: SlotTables, bucket: seq<nat>, b: nat)
    returns (t1: SlotTables)
    requires LayoutOk(l) && b < |l.bucketP| && PermOk(t, Pow2(l.slotBits)) && |slots| == Pow2(l.slotBits)
    requires NoDuplicates(bucket)
    requires forall i | 0 <= i < |bucket| :: bucket[i] < |slots| && IsFilled(t, bucket[i])
               && BucketOf(l, slots[bucket[i]].key) == b && GetSlotPos(l, slots[bucket[i]].key) == bucket[i]
    ensures BucketFreed(t, t1, bucket, Pow2(l.slotBits))
  {
    t1 := t;
    var i := 0;
    while i < |bucket|
      invariant 0 <= i <= |bucket| && BucketFreed(t, t1, bucket[..i], Pow2(l.slotBits))
    {
      var hash := BitHash(l, slots[bucket[i]].key, l.bucketP[b] % 2);
      var pos := SlotOf(hash, l.bucketP[b] / 2, l.slotBits);
      assert pos == bucket[i] && pos !in bucket[..i];
      UnfillOk(t1, Pow2(l.slotBits), pos);
      t1 := Unfill(t1, Pow2(l.slotBits), pos);
      assert bucket[..i + 1] == bucket[..i] + [bucket[i]];
      i := i + 1;
    }
    assert bucket[..i] == bucket;
  }

  /** With this optional bit no offset puts the bucket and the new key on distinct free slots. */
  ghost predicate BitFails<K, V>(l: Layout<K>, slots: seq<Slot<K, V>>, t1: SlotTables, bucket: seq<nat>, k: K, bit: nat)
    requires LayoutOk(l) && forall i | 0 <= i < |bucket| :: bucket[i] < |slots|
  {
    var pattern := BucketPattern(l, slots, bucket, k, bit);
    DistinctSlots(pattern, l.slotBits) ==> NoOffsetFits(t1, pattern, l.slotBits)
  }

  /** From the bucket's optional bit upward, looks for an offset for the bucket and the new key. */
  method SearchParam<K, V>(l: Layout<K>, slots: seq<Slot<K, V>>, t1: SlotTables, bucket: seq<nat>, k: K, bit0: nat)
    returns (found: bool, param: nat, t': SlotTables)
    requires LayoutOk(l) && PermOk(t1, Pow2(l.slotBits)) && bit0 < 2
    requires forall i | 0 <= i < |bucket| :: bucket[i] < |slots|
    ensures found ==> Placed(t1, BucketPattern(l, slots, bucket, k, param % 2), param / 2, l.slotBits, t')
    ensures found ==> bit0 <= param % 2
    ensures found ==> forall bit | bit0 <= bit < param % 2 :: BitFails(l, slots, t1, bucket, k, bit)
    ensures !found ==> forall bit | bit0 <= bit < 2 :: BitFails(l, slots, t1, bucket, k, bit)
  {
    hide BucketPattern, Placed, NoOffsetFits, DistinctSlots;
    var bit := bit0;
    while bit < 2
      invariant bit0 <= bit <= 2
      invariant forall bit' | bit0 <= bit' < bit :: BitFails(l, slots, t1, bucket, k, bit')
    {
      var pattern := BucketPattern(l, slots, bucket, k, bit);
      var pass, _ := TestHashVecSelfCollision(pattern, l.slotBits, seq(Pow2(l.slotBits), _ => false));
      if pass {
        var offset;
        offset, t' := PlacePattern(t1, pattern, l.slotBits);
        if offset.Some? {
          return true, 2 * offset.value + bit, t';
        }
      }
      bit := bit + 1;
    }
    return false, 0, t1;
  }

  /** From its present optional bit upward no parameter puts the bucket and the new key on distinct slots free of
      other buckets. */
  ghost predicate NoPlace<K, V>(l: Layout<K>, slots: seq<Slot<K, V>>, t: SlotTables, bucket: seq<nat>, k: K) {
    && LayoutOk(l) && (forall i | 0 <= i < |bucket| :: bucket[i] < |slots|)
    && exists t1: SlotTables ::
         && BucketFreed(t, t1, bucket, Pow2(l.slotBits))
         && forall bit | l.bucketP[BucketOf(l, k)] % 2 <= bit < 2 :: BitFails(l, slots, t1, bucket, k, bit)
  }

  /** Some parameter for the bucket and the new key brings the two fillers' slots together. */
  ghost predicate MoveNeedsFiller<K, V>(l: Layout<K>, slots: seq<Slot<K, V>>, t: SlotTables, f: Fillers<K>,
                                        m: map<K, V>, bucket: seq<nat>, k: K) {
    && LayoutOk(l)
    && exists param: nat, t': SlotTables ::
         && Relocates(l, slots, t, f, m, BucketOf(l, k), param, bucket, k, t')
         && NeedsNewSecond(NewLayout(l, BucketOf(l, k), param), f)
  }

  /** A parameter found by the search is a relocation of the bucket. */
  lemma FoundRelocates<K, V>(l: Layout<K>, slots: seq<Slot<K, V>>, t: SlotTables, f: Fillers<K>, m: map<K, V>, b: nat,
                             bucket: seq<nat>, k: K, t1: SlotTables, param: nat, t': SlotTables)
    requires StateOk(l, slots, t, f, m) && k !in m && b == BucketOf(l, k)
    requires NoDuplicates(bucket) && forall i | 0 <= i < |bucket| :: bucket[i] < |slots|
    requires forall s: nat :: s in bucket <==> IsFilled(t, s) && BucketOf(l, slots[s].key) == b
    requires BucketFreed(t, t1, bucket, Pow2(l.slotBits))
    requires Placed(t1, BucketPattern(l, slots, bucket, k, param % 2), param / 2, l.slotBits, t')
    ensures Relocates(l, slots, t, f, m, b, param, bucket, k, t')
    ensures t'.filled == t.filled + 1
  {
    hide BucketPattern, NewPositions, GetSlotPos, Fits, DistinctSlots, StateOk, BucketOf, IsFilled, PermOk, InPattern;
    StateParts(l, slots, t, f, m);
    assert forall i | 0 <= i < |bucket| :: bucket[i] in bucket;
    PatternPositions(l, slots, b, bucket, k, param, t1);
  }

  /** The slots of the pattern are the new slots of the bucket's keys and of k, all different. */
  lemma PatternPositions<K, V>(l: Layout<K>, slots: seq<Slot<K, V>>, b: nat, bucket: seq<nat>, k: K, param: nat,
                               t1: SlotTables)
    requires LayoutOk(l) && b == BucketOf(l, k)
    requires forall i | 0 <= i < |bucket| :: bucket[i] < |slots| && BucketOf(l, slots[bucket[i]].key) == b
    requires param / 2 < Pow2(l.slotBits)
    requires var pattern := BucketPattern(l, slots, bucket, k, param % 2);
             DistinctSlots(pattern, l.slotBits) && Fits(t1, pattern, param / 2, l.slotBits)
    ensures var l' := NewLayout(l, b, param);
            var ps, pk := NewPositions(l', slots, bucket), GetSlotPos(l', k);
            var pattern := BucketPattern(l, slots, bucket, k, param % 2);
            && NoDuplicates(ps) && pk !in ps
            && (forall s: nat :: InPattern(pattern, param / 2, l.slotBits, |bucket| + 1, s) <==> s in ps || s == pk)
            && (forall s: nat | s in ps || s == pk :: !IsFilled(t1, s))
  {
    var l', pattern := NewLayout(l, b, param), BucketPattern(l, slots, bucket, k, param % 2);
    var ps, pk := NewPositions(l', slots, bucket), GetSlotPos(l', k);
    var n := |bucket|;
    forall i | 0 <= i < n ensures ps[i] == SlotOf(pattern[i], param / 2, l.slotBits) {
      OtherBucketsStay(l, b, param, slots[bucket[i]].key);
    }
    assert pk == SlotOf(pattern[n], param / 2, l.slotBits) by {
      OtherBucketsStay(l, b, param, k);
    }
    forall i, j | 0 <= i < j <= n
      ensures SlotOf(pattern[i], param / 2, l.slotBits) != SlotOf(pattern[j], param / 2, l.slotBits)
    {
      ShiftInjective(pattern[i], pattern[j], param / 2, param / 2, l.slotBits);
    }
    forall s: nat ensures InPattern(pattern, param / 2, l.slotBits, n + 1, s) <==> s in ps || s == pk {
      if s in ps {
        var i :| 0 <= i < n && ps[i] == s;
      }
      if InPattern(pattern, param / 2, l.slotBits, n + 1, s) {
        var i :| 0 <= i < n + 1 && SlotOf(pattern[i], param / 2, l.slotBits) == s;
        assert i < n ==> ps[i] == s;
      }
    }
  }

  /** The bucket lists after a relocation: the moved bucket lists its new slots. */
  lemma RelocatedBuckets<K, V>(l: Layout<K>, slots: seq<Slot<K, V>>, t: SlotTables, f: Fillers<K>, m: map<K, V>,
                               b: nat, param: nat, bucket: seq<nat>, k: K, v: V, t': SlotTables,
                               slots2: seq<Slot<K, V>>, flags: Flags, second: K, moved: bool, buckets: seq<Bucket>)
    requires Relocates(l, slots, t, f, m, b, param, bucket, k, t')
    requires RepairInput(l, slots, t, f, b, param, bucket, slots2, flags, second, moved)
    requires BucketsOk(l, slots, t, buckets) && buckets[b].keys == bucket
    ensures var l' := NewLayout(l, b, param);
            var ps := NewPositions(l', slots, bucket) + [GetSlotPos(l', k)];
            BucketsOk(l', AfterRelocation(l', Repair(l', slots2, f, flags, second, moved), k, v), t',
                      buckets[b := Bucket(|ps|, ps)])
  {
    var l' := NewLayout(l, b, param);
    var ps := NewPositions(l', slots, bucket) + [GetSlotPos(l', k)];
    var final := AfterRelocation(l', Repair(l', slots2, f, flags, second, moved), k, v);
    forall s: nat | IsFilled(t', s)
      ensures BucketOf(l', final[s].key) == b <==> s in ps
      ensures s !in ps ==>
              IsFilled(t, s) && final[s] == slots[s] && BucketOf(l', final[s].key) == BucketOf(l, slots[s].key)
    {
      if s != GetSlotPos(l', k) {
        ResettledFilled(l, slots, t, f, m, b, param, bucket, k, t', slots2, s);
        RepairKeepsFilled(l, slots, t, f, m, b, param, bucket, k, t', slots2, flags, second, moved, s);
        OtherBucketsStay(l, b, param, final[s].key);
      }
    }
    var buckets' := buckets[b := Bucket(|ps|, ps)];
    forall b': nat | b' < |buckets'| ensures BucketOk(l', final, t', buckets'[b'], b') {
      assert BucketOk(l, slots, t, buckets[b'], b');
      if b' != b {
        forall s: nat ensures s in buckets[b'].keys <==> IsFilled(t', s) && BucketOf(l', final[s].key) == b' {
          assert s in buckets[b'].keys ==> s !in bucket;
        }
      }
    }
  }
}

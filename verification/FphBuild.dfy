/** Building the perfect hash: keys are grouped into buckets, the buckets sorted
    by size, and each one given an offset that puts its keys on free slots. */
module FphBuild {
  import opened FiniteSets
  import opened Words
  import opened Wrappers
  import opened FphIndex
  import opened FphSlots
  import opened FphState
  import opened FphIterate
  import CountSort

  /** Each bucket lists the indices of its keys, each once. */
  ghost predicate Grouped<K>(l: Layout<K>, keys: seq<K>, buckets: seq<seq<nat>>)
    requires LayoutOk(l)
  {
    && |buckets| == |l.bucketP|
    && forall b: nat | b < |buckets| :: BucketGrouped(l, keys, buckets[b], b)
  }

  ghost predicate BucketGrouped<K>(l: Layout<K>, keys: seq<K>, bucket: seq<nat>, b: nat)
    requires LayoutOk(l)
  {
    && NoDuplicates(bucket)
    && forall i: nat :: i in bucket <==> i < |keys| && BucketOf(l, keys[i]) == b
  }

  /** Adds every key to its bucket; the size of the largest bucket comes along. */
  method GroupKeys<K>(l: Layout<K>, keys: seq<K>) returns (buckets: seq<seq<nat>>, maxSize: nat)
    requires LayoutOk(l)
    ensures Grouped(l, keys, buckets)
    ensures forall b | 0 <= b < |buckets| :: |buckets[b]| <= maxSize
  {
    buckets := seq(|l.bucketP|, _ => []);
    maxSize := 0;
    var i := 0;
    while i < |keys|
      invariant 0 <= i <= |keys| && |buckets| == |l.bucketP|
      invariant forall b: nat | b < |buckets| :: BucketGrouped(l, keys[..i], buckets[b], b)
      invariant forall b | 0 <= b < |buckets| :: |buckets[b]| <= maxSize
    {
      var b := BucketOf(l, keys[i]);
      ghost var before := buckets;
      buckets := buckets[b := buckets[b] + [i]];
      if |buckets[b]| > maxSize {
        maxSize := |buckets[b]|;
      }
      forall b': nat | b' < |buckets| ensures BucketGrouped(l, keys[..i + 1], buckets[b'], b') {
        GroupStep(l, keys, i, before[b'], b');
      }
      i := i + 1;
    }
    assert keys[..i] == keys;
  }

  lemma GroupStep<K>(l: Layout<K>, keys: seq<K>, i: nat, bucket: seq<nat>, b: nat)
    requires LayoutOk(l) && i < |keys| && BucketGrouped(l, keys[..i], bucket, b)
    ensures BucketOf(l, keys[i]) == b ==> BucketGrouped(l, keys[..i + 1], bucket + [i], b)
    ensures BucketOf(l, keys[i]) != b ==> BucketGrouped(l, keys[..i + 1], bucket, b)
  {
    assert forall j: nat | j < i :: keys[..i + 1][j] == keys[..i][j] == keys[j];
    assert forall j: nat :: j in bucket + [i] <==> j in bucket || j == i;
    assert i !in bucket;
  }

  /** The hashes of a bucket's keys for a choice of the optional bit. */
  function Pattern<K>(l: Layout<K>, keys: seq<K>, bucket: seq<nat>, bit: nat): (p: seq<Word>)
    requires forall i | 0 <= i < |bucket| :: bucket[i] < |keys|
    ensures |p| == |bucket|
    ensures forall i | 0 <= i < |bucket| :: p[i] == BitHash(l, keys[bucket[i]], bit)
  {
    seq(|bucket|, i requires 0 <= i < |bucket| => BitHash(l, keys[bucket[i]], bit))
  }

  /** Key i belongs to one of the first n buckets of the order. */
  ghost predicate IsPlaced<K>(l: Layout<K>, keys: seq<K>, order: seq<nat>, n: nat, i: nat)
    requires LayoutOk(l) && n <= |order|
  {
    i < |keys| && BucketOf(l, keys[i]) in order[..n]
  }

  /** The keys of the first n buckets have slots of their own, and exactly those slots are filled. */
  ghost predicate PlacedOk<K>(l: Layout<K>, keys: seq<K>, order: seq<nat>, n: nat, t: SlotTables)
    requires LayoutOk(l) && n <= |order|
  {
    && PermOk(t, Pow2(l.slotBits))
    && (forall i: nat, j: nat | IsPlaced(l, keys, order, n, i) && IsPlaced(l, keys, order, n, j) && i < j ::
          GetSlotPos(l, keys[i]) != GetSlotPos(l, keys[j]))
    && (forall s: nat :: IsFilled(t, s) <==> SlotTaken(l, keys, order, n, s))
  }

  ghost predicate SlotTaken<K>(l: Layout<K>, keys: seq<K>, order: seq<nat>, n: nat, s: nat)
    requires LayoutOk(l) && n <= |order|
  {
    exists i: nat :: IsPlaced(l, keys, order, n, i) && GetSlotPos(l, keys[i]) == s
  }

  /** Parameter param puts the bucket's keys on distinct slots free in t, and t' has them filled. */
  ghost predicate BucketPlaced<K>(l: Layout<K>, keys: seq<K>, bucket: seq<nat>, t: SlotTables, param: nat,
                                  t': SlotTables)
    requires LayoutOk(l) && KeysInRange(bucket, keys)
  {
    Placed(t, Pattern(l, keys, bucket, param % 2), param / 2, l.slotBits, t')
  }

  /** With this optional bit no offset puts the bucket on distinct free slots. */
  ghost predicate BitFails<K>(l: Layout<K>, keys: seq<K>, bucket: seq<nat>, t: SlotTables, bit: nat)
    requires LayoutOk(l) && KeysInRange(bucket, keys)
  {
    DistinctSlots(Pattern(l, keys, bucket, bit), l.slotBits) ==>
        NoOffsetFits(t, Pattern(l, keys, bucket, bit), l.slotBits)
  }

  ghost predicate KeysInRange<K>(bucket: seq<nat>, keys: seq<K>) {
    forall i | 0 <= i < |bucket| :: bucket[i] < |keys|
  }

  /** Placing the next bucket with a fitting offset extends the placement. */
  lemma PlaceStep<K>(l: Layout<K>, keys: seq<K>, order: seq<nat>, n: nat, t: SlotTables, bucket: seq<nat>, param: nat,
                     t': SlotTables)
    requires LayoutOk(l) && n < |order| && order[n] < |l.bucketP| && order[n] !in order[..n]
    requires PlacedOk(l, keys, order, n, t) && BucketGrouped(l, keys, bucket, order[n])
    requires KeysInRange(bucket, keys) && BucketPlaced(l, keys, bucket, t, param, t')
    ensures PlacedOk(l.(bucketP := l.bucketP[order[n] := param]), keys, order, n + 1, t')
  {
    var b, offset := order[n], param / 2;
    var l' := l.(bucketP := l.bucketP[b := param]);
    var pattern := Pattern(l, keys, bucket, param % 2);
    assert order[..n + 1] == order[..n] + [b];
    forall i: nat ensures IsPlaced(l', keys, order, n + 1, i) <==> IsPlaced(l, keys, order, n, i) || i in bucket {
    }
    forall i: nat | IsPlaced(l, keys, order, n, i) ensures GetSlotPos(l', keys[i]) == GetSlotPos(l, keys[i]) {
      OtherBucketsStay(l, b, param, keys[i]);
    }
    forall p | 0 <= p < |bucket| ensures GetSlotPos(l', keys[bucket[p]]) == SlotOf(pattern[p], offset, l.slotBits) {
      assert bucket[p] in bucket;
    }
    forall i: nat, j: nat | IsPlaced(l', keys, order, n + 1, i) && IsPlaced(l', keys, order, n + 1, j) && i < j
      ensures GetSlotPos(l', keys[i]) != GetSlotPos(l', keys[j])
    {
      PlacedApart(l, l', keys, order, n, t, bucket, pattern, offset, i, j);
    }
    forall s: nat ensures IsFilled(t', s) <==> SlotTaken(l', keys, order, n + 1, s) {
      PlacedSlots(l, l', keys, order, n, t, bucket, pattern, offset, t', s);
    }
  }

  /** What the step lemma knows about the two layouts. */
  ghost predicate Extends<K>(l: Layout<K>, l': Layout<K>, keys: seq<K>, order: seq<nat>, n: nat, bucket: seq<nat>,
                             pattern: seq<Word>, offset: nat)
  {
    && LayoutOk(l) && LayoutOk(l') && n < |order| && l.slotBits == l'.slotBits && offset < Pow2(l.slotBits)
    && |pattern| == |bucket|
    && (forall i: nat :: IsPlaced(l', keys, order, n + 1, i) <==> IsPlaced(l, keys, order, n, i) || i in bucket)
    && (forall i: nat | IsPlaced(l, keys, order, n, i) :: GetSlotPos(l', keys[i]) == GetSlotPos(l, keys[i]))
    && (forall p | 0 <= p < |bucket| ::
          bucket[p] < |keys| && GetSlotPos(l', keys[bucket[p]]) == SlotOf(pattern[p], offset, l.slotBits))
  }

  lemma PlacedApart<K>(l: Layout<K>, l': Layout<K>, keys: seq<K>, order: seq<nat>, n: nat, t: SlotTables,
                       bucket: seq<nat>, pattern: seq<Word>, offset: nat, i: nat, j: nat)
    requires Extends(l, l', keys, order, n, bucket, pattern, offset)
    requires PlacedOk(l, keys, order, n, t) && NoDuplicates(bucket)
    requires Fits(t, pattern, offset, l.slotBits) && DistinctSlots(pattern, l.slotBits)
    requires IsPlaced(l', keys, order, n + 1, i) && IsPlaced(l', keys, order, n + 1, j) && i < j
    ensures GetSlotPos(l', keys[i]) != GetSlotPos(l', keys[j])
  {
    if i in bucket && j in bucket {
      var p :| 0 <= p < |bucket| && bucket[p] == i;
      var q :| 0 <= q < |bucket| && bucket[q] == j;
      ShiftInjective(pattern[p], pattern[q], offset, offset, l.slotBits);
    } else if i in bucket {
      var p :| 0 <= p < |bucket| && bucket[p] == i;
      assert SlotTaken(l, keys, order, n, GetSlotPos(l, keys[j]));
    } else if j in bucket {
      var q :| 0 <= q < |bucket| && bucket[q] == j;
      assert SlotTaken(l, keys, order, n, GetSlotPos(l, keys[i]));
    }
  }

  lemma PlacedSlots<K>(l: Layout<K>, l': Layout<K>, keys: seq<K>, order: seq<nat>, n: nat, t: SlotTables,
                       bucket: seq<nat>, pattern: seq<Word>, offset: nat, t': SlotTables, s: nat)
    requires Extends(l, l', keys, order, n, bucket, pattern, offset)
    requires PlacedOk(l, keys, order, n, t)
    requires IsFilled(t', s) <==> IsFilled(t, s) || InPattern(pattern, offset, l.slotBits, |bucket|, s)
    ensures IsFilled(t', s) <==> SlotTaken(l', keys, order, n + 1, s)
  {
    if IsFilled(t, s) {
      var i: nat :| IsPlaced(l, keys, order, n, i) && GetSlotPos(l, keys[i]) == s;
      assert IsPlaced(l', keys, order, n + 1, i);
    }
    if InPattern(pattern, offset, l.slotBits, |bucket|, s) {
      var p :| 0 <= p < |bucket| && SlotOf(pattern[p], offset, l.slotBits) == s;
      assert bucket[p] in bucket && IsPlaced(l', keys, order, n + 1, bucket[p]);
    }
    if SlotTaken(l', keys, order, n + 1, s) {
      var i: nat :| IsPlaced(l', keys, order, n + 1, i) && GetSlotPos(l', keys[i]) == s;
      if i in bucket {
        var p :| 0 <= p < |bucket| && bucket[p] == i;
      } else {
        assert SlotTaken(l, keys, order, n, s);
      }
    }
  }

  /** No two keys of one bucket share a base slot. */
  ghost predicate SelfCollisionFree<K>(l: Layout<K>, keys: seq<K>, buckets: seq<seq<nat>>, bit: nat)
    requires LayoutOk(l)
  {
    forall b: nat | b < |buckets| ::
      KeysInRange(buckets[b], keys) && DistinctSlots(Pattern(l, keys, buckets[b], bit), l.slotBits)
  }

  /** Whether no bucket's keys collide among themselves for the given optional bit. */
  method TestAllBuckets<K>(l: Layout<K>, keys: seq<K>, buckets: seq<seq<nat>>, order: seq<nat>, bit: nat)
    returns (pass: bool)
    requires LayoutOk(l) && Grouped(l, keys, buckets) && CountSort.IsOrder(order, |buckets|)
    ensures pass <==> SelfCollisionFree(l, keys, buckets, bit)
  {
    var testTable := seq(Pow2(l.slotBits), _ => false);
    pass := true;
    var i := 0;
    while i < |order|
      invariant 0 <= i <= |order| && testTable == seq(Pow2(l.slotBits), _ => false)
      invariant forall b: nat | b in order[..i] :: b < |buckets| && KeysInRange(buckets[b], keys)
                       && DistinctSlots(Pattern(l, keys, buckets[b], bit), l.slotBits)
    {
      var bucket := buckets[order[i]];
      GroupedInRange(l, keys, bucket, order[i]);
      pass, testTable := TestHashVecSelfCollision(Pattern(l, keys, bucket, bit), l.slotBits, testTable);
      if !pass {
        assert !DistinctSlots(Pattern(l, keys, buckets[order[i]], bit), l.slotBits);
        return false;
      }
      assert order[..i + 1] == order[..i] + [order[i]];
      i := i + 1;
    }
    assert order[..i] == order;
  }

  lemma GroupedInRange<K>(l: Layout<K>, keys: seq<K>, bucket: seq<nat>, b: nat)
    requires LayoutOk(l) && BucketGrouped(l, keys, bucket, b)
    ensures KeysInRange(bucket, keys)
  {
    forall i | 0 <= i < |bucket| ensures bucket[i] < |keys| {
      assert bucket[i] in bucket;
    }
  }

  /** With neither optional bit does any offset put the bucket on distinct free slots. */
  ghost predicate Stuck<K>(l: Layout<K>, keys: seq<K>, bucket: seq<nat>, t: SlotTables) {
    LayoutOk(l) && KeysInRange(bucket, keys) && |bucket| > 0 && BitFails(l, keys, bucket, t, 0)
        && BitFails(l, keys, bucket, t, 1)
  }

  /** Looks for an offset for one bucket: with the optional bit 0, whose self-collisions have been
      excluded, and then with 1. */
  method PlaceBucket<K>(l: Layout<K>, keys: seq<K>, bucket: seq<nat>, t: SlotTables)
    returns (ok: bool, param: nat, t': SlotTables)
    requires LayoutOk(l) && KeysInRange(bucket, keys) && |bucket| > 0 && PermOk(t, Pow2(l.slotBits))
    requires DistinctSlots(Pattern(l, keys, bucket, 0), l.slotBits)
    ensures ok ==> BucketPlaced(l, keys, bucket, t, param, t')
    ensures ok ==> forall bit | 0 <= bit < param % 2 :: BitFails(l, keys, bucket, t, bit)
    ensures !ok ==> t' == t && Stuck(l, keys, bucket, t)
  {
    hide Pattern, DistinctSlots, Placed, NoOffsetFits;
    var bit := 0;
    while bit < 2
      invariant 0 <= bit <= 2
      invariant forall bit' | 0 <= bit' < bit :: BitFails(l, keys, bucket, t, bit')
    {
      var pattern := Pattern(l, keys, bucket, bit);
      if bit > 0 {
        var pass, _ := TestHashVecSelfCollision(pattern, l.slotBits, seq(Pow2(l.slotBits), _ => false));
        if !pass {
          return false, 0, t;
        }
      }
      var offset;
      offset, t' := PlacePattern(t, pattern, l.slotBits);
      if offset.Some? {
        return true, 2 * offset.value + bit, t';
      }
      bit := bit + 1;
    }
    return false, 0, t;
  }

  /** Places the buckets in the given order, starting from an empty table. On success every key
      has a slot of its own, and exactly those slots are filled. Failure is at a bucket that no parameter
      puts on slots left by those before it. */
  method PlaceBuckets<K>(l: Layout<K>, keys: seq<K>, buckets: seq<seq<nat>>, order: seq<nat>, t0: SlotTables)
    returns (ok: bool, bucketP: seq<nat>, t: SlotTables)
    requires LayoutOk(l) && Grouped(l, keys, buckets) && CountSort.IsOrder(order, |buckets|)
    requires PermOk(t0, Pow2(l.slotBits)) && t0.filled == 0
    requires SelfCollisionFree(l, keys, buckets, 0)
    ensures |bucketP| == |l.bucketP|
    ensures ok ==> PlacedOk(l.(bucketP := bucketP), keys, order, |order|, t)
    ensures !ok ==> exists n: nat :: n < |order| && PlacedOk(l.(bucketP := bucketP), keys, order, n, t)
                                     && Stuck(l.(bucketP := bucketP), keys, buckets[order[n]], t)
  {
    ok, bucketP, t := true, l.bucketP, t0;
    assert PlacedOk(l, keys, order, 0, t0) && l.(bucketP := l.bucketP) == l;
    hide PlacedOk, Pattern, DistinctSlots, KeysInRange, PermOk, Stuck;
    var n := 0;
    while n < |order|
      invariant 0 <= n <= |order| && |bucketP| == |l.bucketP|
      invariant PlacedOk(l.(bucketP := bucketP), keys, order, n, t)
    {
      if |buckets[order[n]]| == 0 {
        SkipStep(l.(bucketP := bucketP), keys, order, n, t, buckets[order[n]]) by {
          SameHashes(l, bucketP, keys, buckets[order[n]], order[n]);
        }
      } else {
        ok, bucketP, t := PlaceNext(l, bucketP, keys, buckets[order[n]], order, n, t);
        if !ok {
          return;
        }
      }
      n := n + 1;
    }
  }

  /** Places bucket number n of the order. */
  method PlaceNext<K>(l: Layout<K>, bucketP0: seq<nat>, keys: seq<K>, bucket: seq<nat>, order: seq<nat>, n: nat,
                      t0: SlotTables)
    returns (ok: bool, bucketP: seq<nat>, t: SlotTables)
    requires LayoutOk(l) && |bucketP0| == |l.bucketP| && CountSort.IsOrder(order, |l.bucketP|) && n < |order|
    requires PlacedOk(l.(bucketP := bucketP0), keys, order, n, t0)
    requires BucketGrouped(l, keys, bucket, order[n]) && |bucket| > 0
    requires KeysInRange(bucket, keys) && DistinctSlots(Pattern(l, keys, bucket, 0), l.slotBits)
    ensures |bucketP| == |l.bucketP|
    ensures ok ==> PlacedOk(l.(bucketP := bucketP), keys, order, n + 1, t)
    ensures !ok ==> bucketP == bucketP0 && t == t0 && Stuck(l.(bucketP := bucketP0), keys, bucket, t0)
  {
    var b, cur := order[n], l.(bucketP := bucketP0);
    assert PermOk(t0, Pow2(l.slotBits)) && b !in order[..n];
    hide PlacedOk, Pattern, DistinctSlots, BucketPlaced, BitFails, BucketGrouped, PermOk, Stuck;
    SameHashes(l, bucketP0, keys, bucket, b);
    var param;
    ok, param, t := PlaceBucket(cur, keys, bucket, t0);
    bucketP := bucketP0;
    if ok {
      bucketP := bucketP0[b := param];
      PlaceStep(cur, keys, order, n, t0, bucket, param, t);
    }
  }

  lemma SameHashes<K>(l: Layout<K>, bucketP: seq<nat>, keys: seq<K>, bucket: seq<nat>, b: nat)
    requires LayoutOk(l) && |bucketP| == |l.bucketP| && BucketGrouped(l, keys, bucket, b) && KeysInRange(bucket, keys)
    ensures BucketGrouped(l.(bucketP := bucketP), keys, bucket, b)
    ensures Pattern(l.(bucketP := bucketP), keys, bucket, 0) == Pattern(l, keys, bucket, 0)
  {
    var l' := l.(bucketP := bucketP);
    forall i: nat | i < |keys| ensures BucketOf(l', keys[i]) == BucketOf(l, keys[i]) {
    }
  }

  lemma SkipStep<K>(l: Layout<K>, keys: seq<K>, order: seq<nat>, n: nat, t: SlotTables, bucket: seq<nat>)
    requires LayoutOk(l) && n < |order| && PlacedOk(l, keys, order, n, t)
    requires BucketGrouped(l, keys, bucket, order[n]) && |bucket| == 0
    ensures PlacedOk(l, keys, order, n + 1, t)
  {
    assert order[..n + 1] == order[..n] + [order[n]];
    assert forall i: nat :: IsPlaced(l, keys, order, n + 1, i) <==> IsPlaced(l, keys, order, n, i);
    forall s: nat ensures SlotTaken(l, keys, order, n + 1, s) <==> SlotTaken(l, keys, order, n, s) {
    }
  }

  /** After a successful placement GetSlotPos is injective on the keys, the filled slots are
      exactly theirs, and there are as many as keys. */
  lemma PlacementInjective<K>(l: Layout<K>, keys: seq<K>, order: seq<nat>, t: SlotTables)
    requires LayoutOk(l) && CountSort.IsOrder(order, |l.bucketP|) && PlacedOk(l, keys, order, |order|, t)
    ensures forall i: nat, j: nat | i < j < |keys| ::
            GetSlotPos(l, keys[i]) != GetSlotPos(l, keys[j]) && keys[i] != keys[j]
    ensures forall s: nat :: IsFilled(t, s) <==> exists i: nat :: i < |keys| && GetSlotPos(l, keys[i]) == s
    ensures t.filled == |keys|
  {
    assert order[..|order|] == order;
    assert forall i: nat :: IsPlaced(l, keys, order, |order|, i) <==> i < |keys|;
    FilledCount(t, Pow2(l.slotBits));
    PositionsCount(l, keys, |keys|);
    assert FilledSet(t) == Positions(l, keys, |keys|) by {
      forall s: nat | s in FilledSet(t) ensures s in Positions(l, keys, |keys|) {
        assert SlotTaken(l, keys, order, |order|, s);
      }
      forall s: nat | s in Positions(l, keys, |keys|) ensures s in FilledSet(t) {
        assert SlotTaken(l, keys, order, |order|, s);
      }
    }
    forall s: nat ensures IsFilled(t, s) <==> exists i: nat :: i < |keys| && GetSlotPos(l, keys[i]) == s {
      assert IsFilled(t, s) <==> SlotTaken(l, keys, order, |order|, s);
    }
  }

  ghost function Positions<K>(l: Layout<K>, keys: seq<K>, n: nat): set<nat>
    requires LayoutOk(l) && n <= |keys|
  {
    set i | 0 <= i < n :: GetSlotPos(l, keys[i])
  }

  lemma {:induction false} PositionsCount<K>(l: Layout<K>, keys: seq<K>, n: nat)
    requires LayoutOk(l) && n <= |keys|
    requires forall i: nat, j: nat | i < j < |keys| :: GetSlotPos(l, keys[i]) != GetSlotPos(l, keys[j])
    ensures |Positions(l, keys, n)| == n
  {
    if n == 0 {
    } else {
      PositionsCount(l, keys, n - 1);
      assert Positions(l, keys, n) == Positions(l, keys, n - 1) + {GetSlotPos(l, keys[n - 1])};
    }
  }

  lemma OddFits(draw: Word)
    ensures draw % 2 == 0 ==> draw + 1 < WORD
  {
    assert WORD == 2 * 0x8000_0000_0000_0000;
  }

  /** A random engine draw made odd. */
  method OddSeed() returns (seed: Word) {
    var draw: nat := *;
    draw := draw % WORD;
    OddFits(draw);
    seed := if draw % 2 == 0 then draw + 1 else draw;
  }

  /** The slots listed in an arbitrary order, none of them filled. */
  method Shuffle(m: nat) returns (t: SlotTables)
    ensures PermOk(t, m) && t.filled == 0
  {
    var identity := seq(m, i => i);
    t := SlotTables(identity, identity, 0);
    var i := m;
    while i > 1
      invariant 0 <= i <= m && PermOk(t, m) && t.filled == 0
    {
      i := i - 1;
      var draw: nat := *;
      SwapPlacesOk(t, m, i, draw % (i + 1));
      t := SwapPlaces(t, m, i, draw % (i + 1));
    }
  }

  /** The indices of the keys of bucket b. */
  ghost function KeyIndices<K>(l: Layout<K>, keys: seq<K>, b: nat): set<nat>
    requires LayoutOk(l)
  {
    set i: nat | i < |keys| && BucketOf(l, keys[i]) == b
  }

  /** Each bucket's size. */
  ghost predicate SizesOk<K>(l: Layout<K>, keys: seq<K>, sizes: seq<nat>)
    requires LayoutOk(l)
  {
    |sizes| == |l.bucketP| && forall b: nat | b < |sizes| :: sizes[b] == |KeyIndices(l, keys, b)|
  }

  lemma GroupedSizes<K>(l: Layout<K>, keys: seq<K>, buckets: seq<seq<nat>>, sizes: seq<nat>)
    requires LayoutOk(l) && Grouped(l, keys, buckets)
    requires |sizes| == |buckets| && forall b: nat | b < |buckets| :: sizes[b] == |buckets[b]|
    ensures SizesOk(l, keys, sizes)
  {
    forall b: nat | b < |sizes| ensures sizes[b] == |KeyIndices(l, keys, b)| {
      assert BucketGrouped(l, keys, buckets[b], b);
      NoDuplicatesCount(buckets[b]);
      assert Elements(buckets[b]) == KeyIndices(l, keys, b);
    }
  }

  /** The order of the buckets, largest first. */
  method SortBuckets(buckets: seq<seq<nat>>, maxSize: nat) returns (order: seq<nat>, sizes: seq<nat>)
    requires forall b | 0 <= b < |buckets| :: |buckets[b]| <= maxSize
    ensures CountSort.IsOrder(order, |buckets|)
    ensures |sizes| == |buckets| && forall b: nat | b < |buckets| :: sizes[b] == |buckets[b]|
    ensures CountSort.IsSorted(order, sizes, true)
  {
    sizes := seq(|buckets|, b requires 0 <= b < |buckets| => |buckets[b]|);
    var out := new nat[|buckets|];
    CountSort.CountSortOutIndex(sizes, maxSize, true, out);
    order := out[..];
  }

  /** Why one try with fixed first seeds fails: every second seed drawn makes some bucket collide with itself, or,
      with a seed that does not, some bucket of the order has no place left. */
  datatype Failure = Collides(seeds: seq<Word>) | StuckAt(seed2: Word, bucketP: seq<nat>, n: nat, t: SlotTables)

  ghost predicate Fails<K>(l: Layout<K>, keys: seq<K>, buckets: seq<seq<nat>>, order: seq<nat>, f: Failure)
    requires LayoutOk(l)
  {
    match f
    case Collides(seeds) =>
      |seeds| == 1000 && forall s | s in seeds :: !SelfCollisionFree(l.(seed2 := s), keys, buckets, 0)
    case StuckAt(seed2, bucketP, n, t) =>
      var l' := l.(seed2 := seed2, bucketP := bucketP);
      && LayoutOk(l') && n < |order| && order[n] < |buckets|
      && PlacedOk(l', keys, order, n, t) && Stuck(l', keys, buckets[order[n]], t)
  }

  /** The first seeds fail: the buckets they make, taken largest first, fail 1000 times. */
  ghost predicate SeedsFail<K>(l: Layout<K>, keys: seq<K>, failures: seq<Failure>) {
    && LayoutOk(l) && |failures| == 1000
    && exists buckets: seq<seq<nat>>, order: seq<nat>, sizes: seq<nat> ::
         && Grouped(l, keys, buckets) && CountSort.IsOrder(order, |buckets|)
         && |sizes| == |buckets| && (forall b: nat | b < |buckets| :: sizes[b] == |buckets[b]|)
         && CountSort.IsSorted(order, sizes, true)
         && forall f | f in failures :: Fails(l, keys, buckets, order, f)
  }

  /** For fixed first seeds: groups the keys, and tries second seeds until no bucket collides with
      itself and all buckets can be placed. */
  method SearchSeed2<K>(l0: Layout<K>, keys: seq<K>)
    returns (ok: bool, l: Layout<K>, t: SlotTables, sizes: seq<nat>, order: seq<nat>, ghost failures: seq<Failure>)
    requires LayoutOk(l0)
    ensures !ok ==> SeedsFail(l0, keys, failures)
    ensures l.slotBits == l0.slotBits && l.hash == l0.hash
    ensures ok ==> BuiltLayout(l, keys, order, t, sizes)
    ensures |keys| == 0 ==> ok
  {
    ok, l := false, l0;
    var buckets, maxSize := GroupKeys(l, keys);
    var sorted;
    sorted, sizes := SortBuckets(buckets, maxSize);
    GroupedSizes(l, keys, buckets, sizes);
    t, order, failures := SlotTables([], [], 0), sorted, [];
    var try2 := 0;
    while try2 < 1000
      invariant |failures| == try2 <= 1000 && forall f | f in failures :: Fails(l0, keys, buckets, sorted, f)
      invariant !ok
      invariant l == l0.(seed2 := l.seed2)
      invariant |keys| == 0 ==> try2 == 0
    {
      var seed2;
      ghost var seeds;
      SameGroups(l0, l, keys, buckets, sizes);
      seed2, ok, seeds := SearchSelfCollisionFree(l0, keys, buckets, sorted);
      ghost var failure := Collides(seeds);
      l := l.(seed2 := seed2);
      if ok {
        SameGroups(l0, l, keys, buckets, sizes);
        var t0 := Shuffle(Pow2(l.slotBits));
        if |keys| == 0 {
          NoKeysNoCollision(l, keys, buckets, 0);
        }
        var bucketP;
        ok, bucketP, t := PlaceBuckets(l, keys, buckets, sorted, t0);
        if ok {
          SameGroups(l, l.(bucketP := bucketP), keys, buckets, sizes);
          l := l.(bucketP := bucketP);
          return;
        }
        failure := StuckHere(l0, seed2, bucketP, keys, buckets, sorted);
      }
      failures := failures + [failure];
      try2 := try2 + 1;
    }
  }

  lemma StuckHere<K>(l: Layout<K>, seed2: Word, bucketP: seq<nat>, keys: seq<K>, buckets: seq<seq<nat>>,
                     order: seq<nat>)
    returns (f: Failure)
    requires LayoutOk(l) && |bucketP| == |l.bucketP| && CountSort.IsOrder(order, |buckets|)
    requires var l' := l.(seed2 := seed2, bucketP := bucketP);
             exists n: nat, t: SlotTables :: n < |order| && PlacedOk(l', keys, order, n, t)
                                             && Stuck(l', keys, buckets[order[n]], t)
    ensures Fails(l, keys, buckets, order, f)
  {
    var l' := l.(seed2 := seed2, bucketP := bucketP);
    var n: nat, t: SlotTables :| n < |order| && PlacedOk(l', keys, order, n, t)
                                 && Stuck(l', keys, buckets[order[n]], t);
    f := StuckAt(seed2, bucketP, n, t);
  }

  /** What a successful search delivers. */
  ghost predicate BuiltLayout<K>(l: Layout<K>, keys: seq<K>, order: seq<nat>, t: SlotTables, sizes: seq<nat>) {
    && LayoutOk(l) && CountSort.IsOrder(order, |l.bucketP|)
    && |sizes| == |order| && CountSort.IsSorted(order, sizes, true)
    && PlacedOk(l, keys, order, |order|, t) && SizesOk(l, keys, sizes)
  }

  /** Buckets depend on the first two seeds only. */
  lemma SameGroups<K>(l: Layout<K>, l': Layout<K>, keys: seq<K>, buckets: seq<seq<nat>>, sizes: seq<nat>)
    requires LayoutOk(l) && LayoutOk(l') && l'.hash == l.hash && l'.seed0 == l.seed0 && l'.seed1 == l.seed1
    requires l'.bucketBits == l.bucketBits
    requires Grouped(l, keys, buckets) && SizesOk(l, keys, sizes)
    ensures Grouped(l', keys, buckets) && SizesOk(l', keys, sizes)
  {
    assert forall k :: BucketOf(l', k) == BucketOf(l, k);
    forall b: nat | b < |buckets| ensures BucketGrouped(l', keys, buckets[b], b) {
      assert BucketGrouped(l, keys, buckets[b], b);
    }
    forall b: nat | b < |sizes| ensures sizes[b] == |KeyIndices(l', keys, b)| {
      assert KeyIndices(l', keys, b) == KeyIndices(l, keys, b);
    }
  }

  /** A bucket lists no more indices than there are keys. */
  lemma BucketAtMostKeys<K>(l: Layout<K>, keys: seq<K>, bucket: seq<nat>, b: nat)
    requires LayoutOk(l) && BucketGrouped(l, keys, bucket, b)
    ensures |bucket| <= |keys|
  {
    NoDuplicatesCount(bucket);
    var all := Below(|keys|);
    forall x | x in Elements(bucket) ensures x in all {
    }
    SubsetSize(Elements(bucket), all);
  }

  /** Without keys all buckets are empty, so none collides with itself. */
  lemma NoKeysNoCollision<K>(l: Layout<K>, keys: seq<K>, buckets: seq<seq<nat>>, bit: nat)
    requires LayoutOk(l) && Grouped(l, keys, buckets) && |keys| == 0
    ensures SelfCollisionFree(l, keys, buckets, bit)
    ensures forall b | 0 <= b < |buckets| :: |buckets[b]| == 0
  {
    forall b: nat | b < |buckets| ensures |buckets[b]| == 0 {
      assert BucketGrouped(l, keys, buckets[b], b);
      BucketAtMostKeys(l, keys, buckets[b], b);
    }
  }

  /** Draws second seeds until one makes no bucket collide with itself. */
  method SearchSelfCollisionFree<K>(l: Layout<K>, keys: seq<K>, buckets: seq<seq<nat>>, order: seq<nat>)
    returns (seed2: Word, found: bool, ghost seeds: seq<Word>)
    requires LayoutOk(l) && Grouped(l, keys, buckets) && CountSort.IsOrder(order, |buckets|)
    ensures found ==> SelfCollisionFree(l.(seed2 := seed2), keys, buckets, 0)
    ensures |keys| == 0 ==> found
    ensures !found ==> |seeds| == 1000 && forall s | s in seeds :: !SelfCollisionFree(l.(seed2 := s), keys, buckets, 0)
  {
    found, seed2, seeds := false, 1, [];
    var tries := 0;
    while tries < 1000 && !found
      invariant !found ==> |seeds| == tries <= 1000
      invariant !found ==> forall s | s in seeds :: !SelfCollisionFree(l.(seed2 := s), keys, buckets, 0)
      invariant |keys| == 0 ==> found || tries == 0
      invariant found ==> SelfCollisionFree(l.(seed2 := seed2), keys, buckets, 0)
      decreases 1000 - tries
    {
      seed2 := OddSeed();
      forall b: nat | b < |buckets| ensures BucketGrouped(l.(seed2 := seed2), keys, buckets[b], b) {
        assert BucketGrouped(l, keys, buckets[b], b);
        assert forall k :: BucketOf(l.(seed2 := seed2), k) == BucketOf(l, k);
      }
      found := TestAllBuckets(l.(seed2 := seed2), keys, buckets, order, 0);
      if |keys| == 0 {
        NoKeysNoCollision(l.(seed2 := seed2), keys, buckets, 0);
      }
      seeds := seeds + [seed2];
      tries := tries + 1;
    }
  }

  /** First seeds that were tried, with the failures they led to. */
  datatype Tried<!K> = Tried(l: Layout<K>, failures: seq<Failure>)

  ghost predicate TriedOk<K>(hash: (K, Word) -> Word, keys: seq<K>, slotBits: nat, bucketBits: nat, x: Tried<K>) {
    && x.l.hash == hash && x.l.slotBits == slotBits && x.l.bucketBits == bucketBits
    && SeedsFail(x.l, keys, x.failures)
  }

  /** Tries seeds until every key has a slot of its own, within the given numbers of attempts. */
  method SearchSeeds<K>(hash: (K, Word) -> Word, keys: seq<K>, slotBits: nat, bucketBits: nat)
    returns (ok: bool, l: Layout<K>, t: SlotTables, sizes: seq<nat>, order: seq<nat>, ghost tried: seq<Tried<K>>)
    requires 3 <= slotBits <= MAX_SLOT_BITS && 1 <= bucketBits <= 63
    ensures ok ==> BuiltLayout(l, keys, order, t, sizes) && l.slotBits == slotBits && l.hash == hash
    ensures !ok ==> |tried| == 10 * 100 && forall x | x in tried :: TriedOk(hash, keys, slotBits, bucketBits, x)
    ensures |keys| == 0 ==> ok
  {
    // the bucket parameters of a fresh allocation are uninitialised
    assert |seq(Pow2(bucketBits), _ => 0)| == Pow2(bucketBits);
    var bucketP: seq<nat> :| |bucketP| == Pow2(bucketBits);
    ok, l := false, Layout(hash, 0, 0, 0, slotBits, bucketBits, bucketP);
    t, sizes, order, tried := SlotTables([], [], 0), [], [], [];
    var try0 := 0;
    while try0 < 10
      invariant !ok && |tried| == 100 * try0 <= 1000
      invariant forall x | x in tried :: TriedOk(hash, keys, slotBits, bucketBits, x)
      invariant |keys| == 0 ==> try0 == 0
    {
      var seed0 := OddSeed();
      var try1 := 0;
      while try1 < 100
        invariant !ok && |tried| == 100 * try0 + try1 <= 100 * try0 + 100
        invariant forall x | x in tried :: TriedOk(hash, keys, slotBits, bucketBits, x)
        invariant |keys| == 0 ==> try1 == 0
        decreases 100 - try1
      {
        var seed1 := OddSeed();
        ghost var failures;
        var l0 := Layout(hash, seed0, seed1, 0, slotBits, bucketBits, bucketP);
        ok, l, t, sizes, order, failures := SearchSeed2(l0, keys);
        if ok {
          return;
        }
        tried := tried + [Tried(l0, failures)];
        try1 := try1 + 1;
      }
      try0 := try0 + 1;
    }
  }
}

/** Relocating a whole bucket to a new offset, so that a new key fits, and
    repairing the markers of the fillers' own slots, which may have moved too. */
module FphRelocate {
  import opened Words
  import opened FphIndex
  import opened FphSlots
  import opened FphState

  /** What happened to the fillers while the bucket's elements were moved. */
  datatype Flags = Flags(
    containFirst: bool,            // the first filler is a key of the bucket
    containSecond: bool,           // the second filler is a key of the bucket
    filledNewFirstPos: bool,       // a vacated slot is the first filler's new slot
    oldFirstPosEmpty: bool)        // the first filler's old slot is free

  ghost predicate HasKey<K, V>(slots: seq<Slot<K, V>>, bucket: seq<nat>, k: K) {
    exists i :: 0 <= i < |bucket| && bucket[i] < |slots| && slots[bucket[i]].key == k
  }

  lemma HasKeySnoc<K, V>(slots: seq<Slot<K, V>>, bucket: seq<nat>, k: K, i: nat)
    requires i < |bucket| && bucket[i] < |slots|
    ensures HasKey(slots, bucket[..i + 1], k) <==> HasKey(slots, bucket[..i], k) || slots[bucket[i]].key == k
  {
    var xs, ys := bucket[..i], bucket[..i + 1];
    if HasKey(slots, ys, k) && slots[bucket[i]].key != k {
      var j :| 0 <= j < |ys| && ys[j] < |slots| && slots[ys[j]].key == k;
      assert xs[j] == ys[j];
    }
    if HasKey(slots, xs, k) {
      var j :| 0 <= j < |xs| && xs[j] < |slots| && slots[xs[j]].key == k;
      assert ys[j] == xs[j];
    }
    if slots[bucket[i]].key == k {
      assert ys[i] == bucket[i];
    }
  }

  /** The slots of a bucket marked free, with respect to the first filler's new slot. */
  ghost predicate Vacated<K, V>(slots: seq<Slot<K, V>>, slots': seq<Slot<K, V>>, f: Fillers<K>, bucket: seq<nat>,
                                newFirstPos: nat) {
    && |slots'| == |slots|
    && (forall s: nat | s < |slots| && s !in bucket :: slots'[s] == slots[s])
    && (forall s: nat | s < |slots| && s in bucket :: slots'[s].key == if s == newFirstPos then f.second else f.first)
  }

  ghost predicate VacatedFlags<K, V>(slots: seq<Slot<K, V>>, f: Fillers<K>, bucket: seq<nat>, newFirstPos: nat,
                                     oldEmpty: bool, flags: Flags) {
    && (flags.containFirst <==> HasKey(slots, bucket, f.first))
    && (flags.containSecond <==> HasKey(slots, bucket, f.second))
    && (flags.filledNewFirstPos <==> newFirstPos in bucket)
    && (flags.oldFirstPosEmpty <==> oldEmpty || (newFirstPos in bucket && newFirstPos == f.address))
  }

  /** Takes the elements out of their old slots into a buffer, and marks those slots free
      with respect to the first filler's new slot. */
  method Vacate<K(==), V>(slots: seq<Slot<K, V>>, bucket: seq<nat>, f: Fillers<K>, newFirstPos: nat, oldEmpty: bool)
    returns (slots': seq<Slot<K, V>>, buffer: seq<Slot<K, V>>, flags: Flags)
    requires forall i | 0 <= i < |bucket| :: bucket[i] < |slots|
    requires NoDuplicates(bucket)
    ensures |buffer| == |bucket| && forall i | 0 <= i < |bucket| :: buffer[i] == slots[bucket[i]]
    ensures Vacated(slots, slots', f, bucket, newFirstPos)
    ensures VacatedFlags(slots, f, bucket, newFirstPos, oldEmpty, flags)
  {
    slots', buffer, flags := slots, [], Flags(false, false, false, oldEmpty);
    var i := 0;
    while i < |bucket|
      invariant 0 <= i <= |bucket|
      invariant |buffer| == i && forall j | 0 <= j < i :: buffer[j] == slots[bucket[j]]
      invariant Vacated(slots, slots', f, bucket[..i], newFirstPos)
      invariant VacatedFlags(slots, f, bucket[..i], newFirstPos, oldEmpty, flags)
    {
      var pos := bucket[i];
      assert pos !in bucket[..i];
      assert bucket[..i + 1] == bucket[..i] + [pos];
      var slot := slots'[pos];
      buffer := buffer + [slot];
      flags := NoteSlot(slots, bucket, i, slot, f, newFirstPos, oldEmpty, flags);
      slots' := slots'[pos := slot.(key := if pos != newFirstPos then f.first else f.second)];
      i := i + 1;
    }
    assert bucket[..i] == bucket;
  }

  /** The flags after one more vacated slot. */
  method NoteSlot<K(==), V>(ghost slots: seq<Slot<K, V>>, bucket: seq<nat>, i: nat, slot: Slot<K, V>, f: Fillers<K>,
                            newFirstPos: nat, ghost oldEmpty: bool, flags: Flags)
    returns (flags': Flags)
    requires i < |bucket| && bucket[i] < |slots| && slot == slots[bucket[i]]
    requires VacatedFlags(slots, f, bucket[..i], newFirstPos, oldEmpty, flags)
    ensures VacatedFlags(slots, f, bucket[..i + 1], newFirstPos, oldEmpty, flags')
  {
    flags' := flags;
    assert bucket[..i + 1] == bucket[..i] + [bucket[i]];
    HasKeySnoc(slots, bucket, f.first, i);
    HasKeySnoc(slots, bucket, f.second, i);
    if slot.key == f.first {
      flags' := flags'.(containFirst := true);
    }
    if slot.key == f.second {
      flags' := flags'.(containSecond := true);
    }
    if bucket[i] == newFirstPos {
      flags' := flags'.(filledNewFirstPos := true);
      if bucket[i] == f.address {
        flags' := flags'.(oldFirstPosEmpty := true);
      }
    }
  }

  /** Puts the buffered elements into their new slots. */
  method Resettle<K, V>(slots: seq<Slot<K, V>>, buffer: seq<Slot<K, V>>, newPos: seq<nat>, address: nat, oldEmpty: bool)
    returns (slots': seq<Slot<K, V>>, oldEmpty': bool)
    requires |newPos| == |buffer| && NoDuplicates(newPos)
    requires forall i | 0 <= i < |newPos| :: newPos[i] < |slots|
    ensures |slots'| == |slots|
    ensures forall i | 0 <= i < |newPos| :: slots'[newPos[i]] == buffer[i]
    ensures forall s: nat | s < |slots| && s !in newPos :: slots'[s] == slots[s]
    ensures oldEmpty' <==> oldEmpty && address !in newPos
  {
    slots', oldEmpty' := slots, oldEmpty;
    var i := 0;
    while i < |newPos|
      invariant 0 <= i <= |newPos| && |slots'| == |slots|
      invariant forall j | 0 <= j < i :: slots'[newPos[j]] == buffer[j]
      invariant forall s: nat | s < |slots| && s !in newPos[..i] :: slots'[s] == slots[s]
      invariant oldEmpty' <==> oldEmpty && address !in newPos[..i]
    {
      assert newPos[..i + 1] == newPos[..i] + [newPos[i]];
      slots' := slots'[newPos[i] := buffer[i]];
      if newPos[i] == address {
        oldEmpty' := false;
      }
      i := i + 1;
    }
    assert newPos[..i] == newPos;
  }

  datatype Repaired<K, V> = Repaired(slots: seq<Slot<K, V>>, fillers: Fillers<K>)

  /** The fillers' new slots coincide, so that a new second filler is needed. */
  predicate NeedsNewSecond<K(==)>(l: Layout<K>, f: Fillers<K>)
    requires LayoutOk(l)
  {
    GetSlotPos(l, f.first) == GetSlotPos(l, f.second)
  }

  /** What a newly drawn second filler must satisfy. */
  predicate GoodSecond<K(==), V>(l: Layout<K>, slots: seq<Slot<K, V>>, f: Fillers<K>, second: K)
    requires LayoutOk(l) && f.address < |slots|
  {
    GetSlotPos(l, f.first) != GetSlotPos(l, second) && second != slots[f.address].key
  }

  function SetKey<K, V>(slots: seq<Slot<K, V>>, s: nat, key: K): seq<Slot<K, V>>
    requires s < |slots|
  {
    slots[s := slots[s].(key := key)]
  }

  /** Replaces the second filler, and its mark in the slots that carried it. */
  function ReplaceSecond<K(==), V>(l: Layout<K>, slots: seq<Slot<K, V>>, f: Fillers<K>, flags: Flags,
                                   second: K): Repaired<K, V>
    requires LayoutOk(l) && f.address < |slots| == Pow2(l.slotBits)
  {
    var pos := GetSlotPos(l, f.first);
    var slots1 := if flags.oldFirstPosEmpty then SetKey(slots, f.address, second) else slots;
    var slots2 := if !flags.containSecond && flags.filledNewFirstPos && slots1[pos].key == f.second
                  then SetKey(slots1, pos, second) else slots1;
    Repaired(slots2, f.(second := second))
  }

  /** Moves the first filler's address, and the marks of its old and new slots. */
  function MoveFirst<K(==), V>(l: Layout<K>, slots: seq<Slot<K, V>>, f: Fillers<K>, flags: Flags): Repaired<K, V>
    requires LayoutOk(l) && f.address < |slots| == Pow2(l.slotBits)
  {
    var pos := GetSlotPos(l, f.first);
    var slots2 :=
      if flags.containFirst then slots
      else
        var slots1 := if slots[pos].key == f.first then SetKey(slots, pos, f.second) else slots;
        if pos != f.address && slots1[f.address].key == f.second
           && !(flags.containSecond && f.address == GetSlotPos(l, f.second))
        then SetKey(slots1, f.address, f.first) else slots1;
    Repaired(slots2, f.(address := pos))
  }

  /** The repair after the bucket's elements have been resettled. second is the newly drawn
      filler, used only if one is needed; moved says that the bucket is the first filler's and its
      parameter has changed. */
  function Repair<K(==), V>(l: Layout<K>, slots: seq<Slot<K, V>>, f: Fillers<K>, flags: Flags, second: K, moved: bool)
    : (r: Repaired<K, V>)
    requires LayoutOk(l) && f.address < |slots| == Pow2(l.slotBits)
    ensures |r.slots| == |slots|
  {
    var r := if NeedsNewSecond(l, f) then ReplaceSecond(l, slots, f, flags, second) else Repaired(slots, f);
    if moved then MoveFirst(l, r.slots, r.fillers, flags) else r
  }

  /** The new slots of the bucket's stored keys. */
  function NewPositions<K, V>(l: Layout<K>, slots: seq<Slot<K, V>>, bucket: seq<nat>): (ps: seq<nat>)
    requires LayoutOk(l) && forall i | 0 <= i < |bucket| :: bucket[i] < |slots|
    ensures |ps| == |bucket|
    ensures forall i | 0 <= i < |bucket| :: ps[i] == GetSlotPos(l, slots[bucket[i]].key)
  {
    seq(|bucket|, i requires 0 <= i < |bucket| => GetSlotPos(l, slots[bucket[i]].key))
  }

  function NewLayout<K>(l: Layout<K>, b: nat, param: nat): Layout<K>
    requires b < |l.bucketP|
  {
    l.(bucketP := l.bucketP[b := param])
  }

  /** The bucket of the absent key k gets parameter param: its stored keys, in the slots listed in
      bucket, and k go to distinct slots that no other bucket's key fills; t' records the result. */
  ghost predicate Relocates<K, V>(l: Layout<K>, slots: seq<Slot<K, V>>, t: SlotTables, f: Fillers<K>, m: map<K, V>,
                                  b: nat, param: nat, bucket: seq<nat>, k: K, t': SlotTables)
  {
    && StateOk(l, slots, t, f, m) && k !in m && b == BucketOf(l, k)
    && NoDuplicates(bucket)
    && (forall s: nat :: s in bucket <==> IsFilled(t, s) && BucketOf(l, slots[s].key) == b)
    && (forall i | 0 <= i < |bucket| :: bucket[i] < |slots|)
    && var l' := NewLayout(l, b, param);
    && var ps := NewPositions(l', slots, bucket);
    && var pk := GetSlotPos(l', k);
    && PermOk(t', Pow2(l.slotBits))
    && NoDuplicates(ps) && pk !in ps
    && (forall s: nat | s in ps || s == pk :: IsFilled(t, s) ==> s in bucket)
    && (forall s: nat :: IsFilled(t', s) <==> (IsFilled(t, s) && s !in bucket) || s in ps || s == pk)
  }

  /** The slots after Vacate and Resettle. */
  ghost predicate Resettled<K, V>(slots: seq<Slot<K, V>>, slots': seq<Slot<K, V>>, f: Fillers<K>, bucket: seq<nat>,
                                  ps: seq<nat>, newFirstPos: nat)
  {
    && |slots'| == |slots| && |ps| == |bucket|
    && (forall i | 0 <= i < |bucket| :: bucket[i] < |slots| && ps[i] < |slots| && slots'[ps[i]] == slots[bucket[i]])
    && (forall s: nat | s < |slots| && s !in ps && s in bucket ::
          slots'[s].key == if s == newFirstPos then f.second else f.first)
    && (forall s: nat | s < |slots| && s !in ps && s !in bucket :: slots'[s] == slots[s])
  }

  ghost predicate FlagsOk<K, V>(slots: seq<Slot<K, V>>, t: SlotTables, f: Fillers<K>, bucket: seq<nat>, ps: seq<nat>,
                                newFirstPos: nat, flags: Flags)
  {
    && (flags.containFirst <==> HasKey(slots, bucket, f.first))
    && (flags.containSecond <==> HasKey(slots, bucket, f.second))
    && (flags.filledNewFirstPos <==> newFirstPos in bucket)
    && (flags.oldFirstPosEmpty <==>
          (!IsFilled(t, f.address) || (newFirstPos in bucket && newFirstPos == f.address)) && f.address !in ps)
  }

  /** A slot filled after the move holds the element it should, before the repair. */
  lemma ResettledFilled<K, V>(l: Layout<K>, slots: seq<Slot<K, V>>, t: SlotTables, f: Fillers<K>, m: map<K, V>,
                              b: nat, param: nat, bucket: seq<nat>, k: K, t': SlotTables, slots2: seq<Slot<K, V>>,
                              s: nat)
    requires Relocates(l, slots, t, f, m, b, param, bucket, k, t')
    requires var l' := NewLayout(l, b, param);
             Resettled(slots, slots2, f, bucket, NewPositions(l', slots, bucket), GetSlotPos(l', f.first))
             && IsFilled(t', s) && s != GetSlotPos(l', k)
    ensures s < |slots2| && SlotFilledOk(NewLayout(l, b, param), m, slots2[s], s)
    ensures s in NewPositions(NewLayout(l, b, param), slots, bucket) ==>
              BucketOf(l, slots2[s].key) == b && HasKey(slots, bucket, slots2[s].key)
    ensures s !in NewPositions(NewLayout(l, b, param), slots, bucket) ==>
              s !in bucket && IsFilled(t, s) && slots2[s] == slots[s] && BucketOf(l, slots2[s].key) != b
              && GetSlotPos(l, slots2[s].key) == s
  {
    var l' := NewLayout(l, b, param);
    var ps := NewPositions(l', slots, bucket);
    if s in ps {
      var i :| 0 <= i < |ps| && ps[i] == s;
      assert SlotOk(l, slots, t, f, m, bucket[i]);
      assert bucket[i] in bucket;
    } else {
      assert SlotOk(l, slots, t, f, m, s);
      OtherBucketsStay(l, b, param, slots[s].key);
    }
  }

  /** The repair leaves slot s alone under these conditions on what it holds. */
  lemma RepairLeaves<K, V>(l: Layout<K>, slots: seq<Slot<K, V>>, f: Fillers<K>, flags: Flags, second: K, moved: bool,
                           s: nat)
    requires LayoutOk(l) && f.address < |slots| == Pow2(l.slotBits) && s < |slots|
    requires s == f.address && NeedsNewSecond(l, f) ==> !flags.oldFirstPosEmpty && slots[s].key != second
    requires s == GetSlotPos(l, f.first) && slots[s].key == f.second && NeedsNewSecond(l, f) ==>
               flags.filledNewFirstPos ==> flags.containSecond
    requires moved && s == GetSlotPos(l, f.first) && slots[s].key == f.first ==> flags.containFirst
    requires moved && s == f.address && slots[s].key == f.second && s != GetSlotPos(l, f.first) ==>
               NeedsNewSecond(l, f) || (flags.containSecond && s == GetSlotPos(l, f.second))
    ensures Repair(l, slots, f, flags, second, moved).slots[s] == slots[s]
  {
  }

  /** A slot filled after the move keeps its element through the repair. */
  lemma RepairKeepsFilled<K, V>(l: Layout<K>, slots: seq<Slot<K, V>>, t: SlotTables, f: Fillers<K>, m: map<K, V>,
                                b: nat, param: nat, bucket: seq<nat>, k: K, t': SlotTables, slots2: seq<Slot<K, V>>,
                                flags: Flags, second: K, moved: bool, s: nat)
    requires Relocates(l, slots, t, f, m, b, param, bucket, k, t')
    requires RepairInput(l, slots, t, f, b, param, bucket, slots2, flags, second, moved)
    requires IsFilled(t', s) && s != GetSlotPos(NewLayout(l, b, param), k)
    ensures s < |slots2| && Repair(NewLayout(l, b, param), slots2, f, flags, second, moved).slots[s] == slots2[s]
  {
    var l' := NewLayout(l, b, param);
    ResettledFilled(l, slots, t, f, m, b, param, bucket, k, t', slots2, s);
    RepairLeaves(l', slots2, f, flags, second, moved, s);
  }

  /** The slots, flags and drawn filler that the repair starts from. */
  ghost predicate RepairInput<K, V>(l: Layout<K>, slots: seq<Slot<K, V>>, t: SlotTables, f: Fillers<K>, b: nat,
                                    param: nat, bucket: seq<nat>, slots2: seq<Slot<K, V>>, flags: Flags, second: K,
                                    moved: bool)
    requires LayoutOk(l) && b < |l.bucketP|
    requires f.address < |slots| == Pow2(l.slotBits)
    requires forall i | 0 <= i < |bucket| :: bucket[i] < |slots|
  {
    var l' := NewLayout(l, b, param);
    var ps := NewPositions(l', slots, bucket);
    var pos := GetSlotPos(l', f.first);
    && Resettled(slots, slots2, f, bucket, ps, pos)
    && FlagsOk(slots, t, f, bucket, ps, pos, flags)
    && (NeedsNewSecond(l', f) ==> GoodSecond(l', slots2, f, second))
    && (moved <==> BucketOf(l, f.first) == b && param != l.bucketP[b])
  }

  /** A slot free after the move, before the repair: marked for the old second filler and the
      first filler's new slot, except for an old filler slot that was free all along. */
  lemma ResettledFree<K, V>(l: Layout<K>, slots: seq<Slot<K, V>>, t: SlotTables, f: Fillers<K>, m: map<K, V>, b: nat,
                            param: nat, bucket: seq<nat>, k: K, t': SlotTables, slots2: seq<Slot<K, V>>, s: nat)
    requires Relocates(l, slots, t, f, m, b, param, bucket, k, t')
    requires var l' := NewLayout(l, b, param);
             Resettled(slots, slots2, f, bucket, NewPositions(l', slots, bucket), GetSlotPos(l', f.first))
             && s < |slots| && !IsFilled(t', s)
    ensures slots2[s].key ==
            if s in bucket then (if s == GetSlotPos(NewLayout(l, b, param), f.first) then f.second else f.first)
                             else Marker(f, s)
    ensures s !in NewPositions(NewLayout(l, b, param), slots, bucket) && (IsFilled(t, s) <==> s in bucket)
  {
    assert SlotOk(l, slots, t, f, m, s);
  }

  /** The first filler's own slot, if free after the move, ends up with the second filler's mark. */
  lemma RepairMarksNewSlot<K, V>(l: Layout<K>, slots: seq<Slot<K, V>>, t: SlotTables, f: Fillers<K>, m: map<K, V>,
                                 b: nat, param: nat, bucket: seq<nat>, k: K, t': SlotTables, slots2: seq<Slot<K, V>>,
                                 flags: Flags, second: K, moved: bool)
    requires Relocates(l, slots, t, f, m, b, param, bucket, k, t')
    requires RepairInput(l, slots, t, f, b, param, bucket, slots2, flags, second, moved)
    requires !IsFilled(t', GetSlotPos(NewLayout(l, b, param), f.first))
    ensures var r := Repair(NewLayout(l, b, param), slots2, f, flags, second, moved);
            r.slots[GetSlotPos(NewLayout(l, b, param), f.first)].key == r.fillers.second
  {
    var l' := NewLayout(l, b, param);
    var s := GetSlotPos(l', f.first);
    OtherBucketsStay(l, b, param, f.first);
    OtherBucketsStay(l, b, param, f.second);
    ResettledFree(l, slots, t, f, m, b, param, bucket, k, t', slots2, s);
    if flags.containSecond && NeedsNewSecond(l', f) {
      SecondInBucket(l, slots, t, f, m, b, param, bucket, k, t', f.second);
    }
    if flags.containFirst {
      SecondInBucket(l, slots, t, f, m, b, param, bucket, k, t', f.first);
    }
  }

  /** A stored key of the bucket fills its new slot. */
  lemma SecondInBucket<K, V>(l: Layout<K>, slots: seq<Slot<K, V>>, t: SlotTables, f: Fillers<K>, m: map<K, V>, b: nat,
                             param: nat, bucket: seq<nat>, k: K, t': SlotTables, x: K)
    requires Relocates(l, slots, t, f, m, b, param, bucket, k, t')
    requires HasKey(slots, bucket, x)
    ensures GetSlotPos(NewLayout(l, b, param), x) in NewPositions(NewLayout(l, b, param), slots, bucket)
    ensures IsFilled(t', GetSlotPos(NewLayout(l, b, param), x))
    ensures x in m && BucketOf(l, x) == b && GetSlotPos(l, x) in bucket
  {
    var i :| 0 <= i < |bucket| && bucket[i] < |slots| && slots[bucket[i]].key == x;
    assert SlotOk(l, slots, t, f, m, bucket[i]);
    assert NewPositions(NewLayout(l, b, param), slots, bucket)[i] == GetSlotPos(NewLayout(l, b, param), x);
    assert bucket[i] in bucket;
  }

  /** The one case in which the repair leaves a wrong mark: the first filler, not itself stored, moves
      to another slot; the second filler is stored in the moved bucket and would share that slot;
      and the newly drawn second filler belongs in the first one's old slot, which is still free. */
  ghost predicate StaleMark<K, V>(l: Layout<K>, slots: seq<Slot<K, V>>, t: SlotTables, f: Fillers<K>, b: nat,
                                  param: nat, bucket: seq<nat>, t': SlotTables, second: K)
    requires LayoutOk(l) && b < |l.bucketP|
  {
    var l' := NewLayout(l, b, param);
    && BucketOf(l, f.first) == b && GetSlotPos(l', f.first) != f.address
    && !HasKey(slots, bucket, f.first)
    && HasKey(slots, bucket, f.second) && NeedsNewSecond(l', f)
    && GetSlotPos(l', second) == f.address
    && !IsFilled(t, f.address) && !IsFilled(t', f.address)
  }

  /** The first filler's old slot, when free after the move and no longer its slot, gets the first
      filler's mark back, except in that one case. */
  lemma RepairMarksOldSlot<K, V>(l: Layout<K>, slots: seq<Slot<K, V>>, t: SlotTables, f: Fillers<K>, m: map<K, V>,
                                 b: nat, param: nat, bucket: seq<nat>, k: K, t': SlotTables, slots2: seq<Slot<K, V>>,
                                 flags: Flags, second: K, moved: bool)
    requires Relocates(l, slots, t, f, m, b, param, bucket, k, t')
    requires RepairInput(l, slots, t, f, b, param, bucket, slots2, flags, second, moved)
    requires !IsFilled(t', f.address) && f.address != GetSlotPos(NewLayout(l, b, param), f.first)
    ensures var r := Repair(NewLayout(l, b, param), slots2, f, flags, second, moved);
            r.slots[f.address].key == f.first <==> !StaleMark(l, slots, t, f, b, param, bucket, t', second)
  {
    var l' := NewLayout(l, b, param);
    OtherBucketsStay(l, b, param, f.first);
    OtherBucketsStay(l, b, param, f.second);
    ResettledFree(l, slots, t, f, m, b, param, bucket, k, t', slots2, f.address);
    if flags.containSecond {
      SecondInBucket(l, slots, t, f, m, b, param, bucket, k, t', f.second);
    }
    if flags.containFirst {
      SecondInBucket(l, slots, t, f, m, b, param, bucket, k, t', f.first);
    }
  }

  /** Slots other than the fillers' own, old and new, are not written by the repair. */
  lemma RepairElsewhere<K, V>(l: Layout<K>, slots: seq<Slot<K, V>>, f: Fillers<K>, flags: Flags, second: K,
                              moved: bool, s: nat)
    requires LayoutOk(l) && f.address < |slots| == Pow2(l.slotBits) && s < |slots|
    requires s != f.address && s != GetSlotPos(l, f.first)
    ensures Repair(l, slots, f, flags, second, moved).slots[s] == slots[s]
  {
  }

  /** After the repair the fillers have different slots and the recorded address is right. */
  lemma RepairFillers<K, V>(l: Layout<K>, slots: seq<Slot<K, V>>, t: SlotTables, f: Fillers<K>, m: map<K, V>, b: nat,
                            param: nat, bucket: seq<nat>, k: K, t': SlotTables, slots2: seq<Slot<K, V>>, flags: Flags,
                            second: K, moved: bool)
    requires Relocates(l, slots, t, f, m, b, param, bucket, k, t')
    requires RepairInput(l, slots, t, f, b, param, bucket, slots2, flags, second, moved)
    ensures var r := Repair(NewLayout(l, b, param), slots2, f, flags, second, moved).fillers;
            && FillersOk(NewLayout(l, b, param), r)
            && r.first == f.first && r.address == GetSlotPos(NewLayout(l, b, param), f.first)
            && r.second == if NeedsNewSecond(NewLayout(l, b, param), f) then second else f.second
  {
    OtherBucketsStay(l, b, param, f.first);
  }

  /** Every stored key is in its slot after the move. */
  lemma RelocationKeeps<K, V>(l: Layout<K>, slots: seq<Slot<K, V>>, t: SlotTables, f: Fillers<K>, m: map<K, V>,
                              b: nat, param: nat, bucket: seq<nat>, k: K, t': SlotTables, slots2: seq<Slot<K, V>>,
                              x: K)
    requires Relocates(l, slots, t, f, m, b, param, bucket, k, t') && x in m
    requires var l' := NewLayout(l, b, param);
             Resettled(slots, slots2, f, bucket, NewPositions(l', slots, bucket), GetSlotPos(l', f.first))
    ensures var s := GetSlotPos(NewLayout(l, b, param), x);
            && IsFilled(t', s) && s != GetSlotPos(NewLayout(l, b, param), k) && s < |slots2| && slots2[s].key == x
  {
    var l' := NewLayout(l, b, param);
    OtherBucketsStay(l, b, param, x);
    assert KeyStored(l, slots, t, x);
    if BucketOf(l, x) == b {
      assert GetSlotPos(l, x) in bucket;
      var i :| 0 <= i < |bucket| && bucket[i] == GetSlotPos(l, x);
      assert NewPositions(l', slots, bucket)[i] == GetSlotPos(l', x);
    }
  }

  function AfterRelocation<K, V>(l: Layout<K>, r: Repaired<K, V>, k: K, v: V): seq<Slot<K, V>>
    requires LayoutOk(l) && |r.slots| == Pow2(l.slotBits)
  {
    r.slots[GetSlotPos(l, k) := Slot(k, v)]
  }

  /** The marks of the free slots after a relocation are all right, except in the one case. */
  lemma RelocationMarks<K, V>(l: Layout<K>, slots: seq<Slot<K, V>>, t: SlotTables, f: Fillers<K>, m: map<K, V>,
                              b: nat, param: nat, bucket: seq<nat>, k: K, v: V, t': SlotTables,
                              slots2: seq<Slot<K, V>>, flags: Flags, second: K, moved: bool)
    requires Relocates(l, slots, t, f, m, b, param, bucket, k, t')
    requires RepairInput(l, slots, t, f, b, param, bucket, slots2, flags, second, moved)
    ensures var r := Repair(NewLayout(l, b, param), slots2, f, flags, second, moved);
            (forall s: nat | s < |slots| && !IsFilled(t', s) :: r.slots[s].key == Marker(r.fillers, s))
            <==> !StaleMark(l, slots, t, f, b, param, bucket, t', second)
  {
    var l' := NewLayout(l, b, param);
    var r := Repair(l', slots2, f, flags, second, moved);
    var pos := GetSlotPos(l', f.first);
    RepairFillers(l, slots, t, f, m, b, param, bucket, k, t', slots2, flags, second, moved);
    if !IsFilled(t', pos) {
      RepairMarksNewSlot(l, slots, t, f, m, b, param, bucket, k, t', slots2, flags, second, moved);
    }
    if !IsFilled(t', f.address) && f.address != pos {
      RepairMarksOldSlot(l, slots, t, f, m, b, param, bucket, k, t', slots2, flags, second, moved);
    }
    forall s: nat | s < |slots| && !IsFilled(t', s) && s != f.address && s != pos
      ensures r.slots[s].key == Marker(r.fillers, s)
    {
      RepairElsewhere(l', slots2, f, flags, second, moved, s);
      ResettledFree(l, slots, t, f, m, b, param, bucket, k, t', slots2, s);
    }
  }

  /** Relocating a bucket and storing the new key gives a correct table holding the old entries and
      the new one if and only if the one case of a stale mark does not occur. */
  lemma RelocationExact<K, V>(l: Layout<K>, slots: seq<Slot<K, V>>, t: SlotTables, f: Fillers<K>, m: map<K, V>,
                              b: nat, param: nat, bucket: seq<nat>, k: K, v: V, t': SlotTables,
                              slots2: seq<Slot<K, V>>, flags: Flags, second: K, moved: bool)
    requires Relocates(l, slots, t, f, m, b, param, bucket, k, t')
    requires RepairInput(l, slots, t, f, b, param, bucket, slots2, flags, second, moved)
    ensures var l' := NewLayout(l, b, param);
            var r := Repair(l', slots2, f, flags, second, moved);
            StateOk(l', AfterRelocation(l', r, k, v), t', r.fillers, m[k := v])
            <==> !StaleMark(l, slots, t, f, b, param, bucket, t', second)
  {
    var l' := NewLayout(l, b, param);
    var r := Repair(l', slots2, f, flags, second, moved);
    var pk := GetSlotPos(l', k);
    var final, m' := AfterRelocation(l', r, k, v), m[k := v];
    assert Resettled(slots, slots2, f, bucket, NewPositions(l', slots, bucket), GetSlotPos(l', f.first));
    hide Repair, RepairInput, StaleMark, Resettled, NewPositions;
    RepairFillers(l, slots, t, f, m, b, param, bucket, k, t', slots2, flags, second, moved);
    RelocationMarks(l, slots, t, f, m, b, param, bucket, k, v, t', slots2, flags, second, moved);
    forall s: nat | s < |final| ensures SlotOk(l', final, t', r.fillers, m', s)
        <==> (!IsFilled(t', s) ==> r.slots[s].key == Marker(r.fillers, s))
    {
      if IsFilled(t', s) && s != pk {
        ResettledFilled(l, slots, t, f, m, b, param, bucket, k, t', slots2, s);
        RepairKeepsFilled(l, slots, t, f, m, b, param, bucket, k, t', slots2, flags, second, moved, s);
      }
    }
    forall x | x in m' ensures KeyStored(l', final, t', x) {
      if x != k {
        RelocationKeeps(l, slots, t, f, m, b, param, bucket, k, t', slots2, x);
        RepairKeepsFilled(l, slots, t, f, m, b, param, bucket, k, t', slots2, flags, second, moved, GetSlotPos(l', x));
      }
    }
  }

  /** The bucket's stored keys are those the bucket lists. */
  lemma HasKeyMeansStored<K, V>(l: Layout<K>, slots: seq<Slot<K, V>>, t: SlotTables, f: Fillers<K>, m: map<K, V>,
                                b: nat, bucket: seq<nat>, x: K)
    requires StateOk(l, slots, t, f, m)
    requires forall s: nat :: s in bucket <==> IsFilled(t, s) && BucketOf(l, slots[s].key) == b
    ensures HasKey(slots, bucket, x) <==> x in m && BucketOf(l, x) == b
  {
    if HasKey(slots, bucket, x) {
      var i :| 0 <= i < |bucket| && bucket[i] < |slots| && slots[bucket[i]].key == x;
      assert bucket[i] in bucket;
      assert SlotOk(l, slots, t, f, m, bucket[i]);
    }
    if x in m && BucketOf(l, x) == b {
      assert KeyStored(l, slots, t, x);
      var i :| 0 <= i < |bucket| && bucket[i] == GetSlotPos(l, x);
      assert slots[bucket[i]].key == x;
    }
  }

  /** A relocation whose second filler is not a stored key always gives a correct table. */
  lemma RelocationSafe<K, V>(l: Layout<K>, slots: seq<Slot<K, V>>, t: SlotTables, f: Fillers<K>, m: map<K, V>, b: nat,
                             param: nat, bucket: seq<nat>, k: K, v: V, t': SlotTables, slots2: seq<Slot<K, V>>,
                             flags: Flags, second: K, moved: bool)
    requires Relocates(l, slots, t, f, m, b, param, bucket, k, t')
    requires RepairInput(l, slots, t, f, b, param, bucket, slots2, flags, second, moved)
    requires f.second !in m || f.first in m || BucketOf(l, f.second) != b || BucketOf(l, f.first) != b
    ensures var l' := NewLayout(l, b, param);
            var r := Repair(l', slots2, f, flags, second, moved);
            StateOk(l', AfterRelocation(l', r, k, v), t', r.fillers, m[k := v])
  {
    RelocationExact(l, slots, t, f, m, b, param, bucket, k, v, t', slots2, flags, second, moved);
    HasKeyMeansStored(l, slots, t, f, m, b, bucket, f.second);
    HasKeyMeansStored(l, slots, t, f, m, b, bucket, f.first);
  }
}

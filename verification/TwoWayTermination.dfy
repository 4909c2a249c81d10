/** When insert and grow stop: the distance of the level to one where the keys
    fit bounds the nesting of grow calls; and keys that share a hash and
    overflow two slots make insert grow for ever. */
module TwoWayTermination {
  import opened FiniteSets
  import opened Words
  import opened Wrappers
  import opened TwoWayModel
  import opened TwoWayRefine

  /** The keys that may be put into slot s of a table with 2^lg slots. */
  ghost function Naming(p: Params, keys: set<int>, s: nat, lg: nat): set<int> {
    set k | k in keys && (s == Index1(p, k, lg) || s == Index2(p, k, lg))
  }

  /** At this level one of the slots of k is named by no more keys than it has cells, or both
      together, being different, by no more than they have cells. */
  ghost predicate KeyFits(p: Params, keys: set<int>, k: int, lg: nat) {
    var s1, s2 := Index1(p, k, lg), Index2(p, k, lg);
    || |Naming(p, keys, s1, lg)| <= p.bucket
    || |Naming(p, keys, s2, lg)| <= p.bucket
    || (s1 != s2 && |Naming(p, keys, s1, lg) + Naming(p, keys, s2, lg)| <= 2 * p.bucket)
  }

  /** At this level every key has room in that sense. */
  ghost predicate Fits(p: Params, keys: set<int>, lg: nat) {
    forall k {:trigger KeyFits(p, keys, k, lg)} | k in keys :: KeyFits(p, keys, k, lg)
  }

  /** The keys in the first n cells of a slot. */
  ghost function KeysOf(slot: Slot, n: nat): set<int>
    requires n <= |slot.keys|
  {
    if n == 0 then {} else KeysOf(slot, n - 1) + {slot.keys[n - 1]}
  }

  lemma {:induction false} KeysOfAt(slot: Slot, n: nat)
    requires n <= |slot.keys|
    ensures forall k :: k in KeysOf(slot, n) <==> exists i :: 0 <= i < n && slot.keys[i] == k
    ensures |KeysOf(slot, n)| <= n
    ensures (forall i, j | 0 <= i < j < n :: slot.keys[i] != slot.keys[j]) ==> |KeysOf(slot, n)| == n
  {
    if n == 0 {
    } else {
      KeysOfAt(slot, n - 1);
    }
  }

  lemma SlotKeysDistinct(p: Params, t: SlotTable, m: map<int, Word>, s: nat)
    requires Holds(p, t, m) && s < |t.slots|
    ensures forall i, j | 0 <= i < j < Used(p, t.slots[s]) :: t.slots[s].keys[i] != t.slots[s].keys[j]
  {
    hide Index1, Index2;
    forall i, j | 0 <= i < j < Used(p, t.slots[s]) ensures t.slots[s].keys[i] != t.slots[s].keys[j] {
      assert Cell(p, t, s, i) && Cell(p, t, s, j);
    }
  }

  lemma SlotKeysNameIt(p: Params, t: SlotTable, m: map<int, Word>, s: nat)
    requires Holds(p, t, m) && s < |t.slots|
    ensures KeysOf(t.slots[s], Used(p, t.slots[s])) <= Naming(p, m.Keys, s, t.lg)
  {
    hide Index1, Index2;
    var n := Used(p, t.slots[s]);
    KeysOfAt(t.slots[s], n);
    forall k | k in KeysOf(t.slots[s], n) ensures k in Naming(p, m.Keys, s, t.lg) {
      var i :| 0 <= i < n && t.slots[s].keys[i] == k;
      assert Cell(p, t, s, i) && CellOk(p, t, m, s, i);
    }
  }

  /** A full slot holds as many keys as it has cells, all of them naming it. */
  lemma FullSlot(p: Params, t: SlotTable, m: map<int, Word>, s: nat)
    requires Holds(p, t, m) && s < |t.slots| && Used(p, t.slots[s]) == p.bucket
    ensures |KeysOf(t.slots[s], p.bucket)| == p.bucket
    ensures KeysOf(t.slots[s], p.bucket) <= Naming(p, m.Keys, s, t.lg)
  {
    SlotKeysDistinct(p, t, m, s);
    SlotKeysNameIt(p, t, m, s);
    KeysOfAt(t.slots[s], p.bucket);
  }

  /** No key is in two slots. */
  lemma SlotsApart(p: Params, t: SlotTable, m: map<int, Word>, s: nat, s': nat)
    requires Holds(p, t, m) && s < |t.slots| && s' < |t.slots| && s != s'
    requires Used(p, t.slots[s]) == Used(p, t.slots[s']) == p.bucket
    ensures KeysOf(t.slots[s], p.bucket) !! KeysOf(t.slots[s'], p.bucket)
  {
    hide Index1, Index2;
    KeysOfAt(t.slots[s], p.bucket);
    KeysOfAt(t.slots[s'], p.bucket);
    forall k | k in KeysOf(t.slots[s], p.bucket) ensures k !in KeysOf(t.slots[s'], p.bucket) {
      var i :| 0 <= i < p.bucket && t.slots[s].keys[i] == k;
      assert Cell(p, t, s, i);
      forall i' | 0 <= i' < p.bucket ensures t.slots[s'].keys[i'] != k {
        assert Cell(p, t, s', i');
      }
    }
  }

  /** A full slot of a new key is named by more keys than it has cells. */
  lemma FullIsCrowded(p: Params, t: SlotTable, m: map<int, Word>, s: nat, k: int)
    requires Holds(p, t, m) && k !in m && s < |t.slots| && Used(p, t.slots[s]) == p.bucket
    requires s == Index1(p, k, t.lg) || s == Index2(p, k, t.lg)
    ensures |Naming(p, m.Keys + {k}, s, t.lg)| > p.bucket
  {
    hide Holds, Index1, Index2, KeysOf, Used;
    HoldsOk(p, t, m);
    FullSlot(p, t, m, s);
    var inside, named := KeysOf(t.slots[s], p.bucket), Naming(p, m.Keys + {k}, s, t.lg);
    assert inside + {k} <= named && k !in inside;
    SubsetSize(inside + {k}, named);
  }

  /** Two full slots of a new key are named by more keys than they have cells. */
  lemma FullPairIsCrowded(p: Params, t: SlotTable, m: map<int, Word>, k: int)
    requires Holds(p, t, m) && k !in m
    requires var s1, s2 := Index1(p, k, t.lg), Index2(p, k, t.lg);
             s1 != s2 && Used(p, t.slots[s1]) == Used(p, t.slots[s2]) == p.bucket
    ensures var s1, s2 := Index1(p, k, t.lg), Index2(p, k, t.lg);
            |Naming(p, m.Keys + {k}, s1, t.lg) + Naming(p, m.Keys + {k}, s2, t.lg)| > 2 * p.bucket
  {
    hide Holds, Index1, Index2, KeysOf, Used;
    HoldsOk(p, t, m);
    var s1, s2 := Index1(p, k, t.lg), Index2(p, k, t.lg);
    FullSlot(p, t, m, s1);
    FullSlot(p, t, m, s2);
    SlotsApart(p, t, m, s1, s2);
    var inside1, inside2 := KeysOf(t.slots[s1], p.bucket), KeysOf(t.slots[s2], p.bucket);
    var named := Naming(p, m.Keys + {k}, s1, t.lg) + Naming(p, m.Keys + {k}, s2, t.lg);
    assert inside1 + inside2 + {k} <= named && k !in inside1 + inside2;
    SubsetSize(inside1 + inside2 + {k}, named);
    assert |inside1 + inside2| == |inside1| + |inside2|;
  }

  /** At a level where the new key fits among the stored ones, inserting it does not call grow. */
  lemma FitsNeverGrows(p: Params, t: SlotTable, m: map<int, Word>, e: Entry)
    requires Represents(p, t, m) && TableOk(p, t) && e.key !in m && e.key <= p.empty
    requires KeyFits(p, m.Keys + {e.key}, e.key, t.lg)
    ensures TryPlace(p, t, e.key, e.value).Some?
  {
    hide Holds, Index1, Index2, Naming, Used;
    var s1, s2 := Index1(p, e.key, t.lg), Index2(p, e.key, t.lg);
    if Used(p, t.slots[s1]) == p.bucket && Used(p, t.slots[s2]) == p.bucket {
      FullIsCrowded(p, t, m, s1, e.key);
      FullIsCrowded(p, t, m, s2, e.key);
      if s1 != s2 {
        FullPairIsCrowded(p, t, m, e.key);
      }
    }
  }

  lemma FitsSubset(p: Params, small: set<int>, big: set<int>, lg: nat)
    requires small <= big && Fits(p, big, lg)
    ensures Fits(p, small, lg)
  {
    forall k | k in small ensures KeyFits(p, small, k, lg) {
      var s1, s2 := Index1(p, k, lg), Index2(p, k, lg);
      assert KeyFits(p, big, k, lg);
      SubsetSize(Naming(p, small, s1, lg), Naming(p, big, s1, lg));
      SubsetSize(Naming(p, small, s2, lg), Naming(p, big, s2, lg));
      SubsetSize(Naming(p, small, s1, lg) + Naming(p, small, s2, lg), Naming(p, big, s1, lg) + Naming(p, big, s2, lg));
    }
  }

  /** If the keys with the new one fit at some level, insert stops, without passing that level. */
  lemma {:induction false} InsertStops(p: Params, t: SlotTable, m: map<int, Word>, e: Entry, level: nat, depth: nat)
    requires Represents(p, t, m) && e.key !in m && e.key < p.empty
    requires t.lg <= level <= t.lg + depth && Fits(p, m.Keys + {e.key}, level)
    ensures var r := InsertRun(p, t, e, depth); r.Some? && r.value.lg <= level
    decreases depth, 0, 0
  {
    hide *;
    RepresentsOk(p, t, m);
    InsertSteps(p, t, e, depth);
    if TryPlace(p, t, e.key, e.value).None? {
      FullBelowLevel(p, t, m, e, level);
      GrowStops(p, t, m, level, depth - 1);
      GrowRefines(p, t, m, depth - 1);
      InsertStops(p, GrowRun(p, t, depth - 1).value, m, e, level, depth - 1);
    }
  }

  lemma FullBelowLevel(p: Params, t: SlotTable, m: map<int, Word>, e: Entry, level: nat)
    requires Represents(p, t, m) && TableOk(p, t) && e.key !in m && e.key < p.empty
    requires t.lg <= level && Fits(p, m.Keys + {e.key}, level)
    requires TryPlace(p, t, e.key, e.value).None?
    ensures t.lg < level && Fits(p, m.Keys, level)
  {
    hide Holds, TableOk, KeyFits, TryPlace;
    if t.lg == level {
      assert KeyFits(p, m.Keys + {e.key}, e.key, t.lg);
      FitsNeverGrows(p, t, m, e);
    }
    FitsSubset(p, m.Keys, m.Keys + {e.key}, level);
  }

  /** insert is one placement, or grow followed by insert. */
  lemma InsertSteps(p: Params, t: SlotTable, e: Entry, depth: nat)
    requires TableOk(p, t) && e.key <= p.empty
    ensures TryPlace(p, t, e.key, e.value).Some? ==>
              InsertRun(p, t, e, depth) == TryPlace(p, t, e.key, e.value) && InsertRun(p, t, e, depth).value.lg == t.lg
    ensures TryPlace(p, t, e.key, e.value).None? && InsertRun(p, t, e, depth).Some? ==>
            depth > 0 && GrowRun(p, t, depth - 1).Some?
    ensures TryPlace(p, t, e.key, e.value).None? && depth > 0 && GrowRun(p, t, depth - 1).Some? ==>
              && TableOk(p, GrowRun(p, t, depth - 1).value)
              && InsertRun(p, t, e, depth) == InsertRun(p, GrowRun(p, t, depth - 1).value, e, depth - 1)
  {
    hide TableOk, GrowRun;
  }

  lemma {:induction false} GrowStops(p: Params, t: SlotTable, m: map<int, Word>, level: nat, depth: nat)
    requires Represents(p, t, m) && t.lg < level <= t.lg + 1 + depth && Fits(p, m.Keys, level)
    ensures var r := GrowRun(p, t, depth); r.Some? && r.value.lg <= level
    decreases depth, 2, 0
  {
    hide *;
    GrowStart(p, t, m);
    GrowSteps(p, t, depth);
    ReinsertStops(p, EmptyTable(p, t.lg + 1), map[], EntriesFrom(p, t, 0), level, depth);
  }

  lemma {:induction false} ReinsertStops(p: Params, t: SlotTable, m: map<int, Word>, es: seq<Entry>, level: nat,
                                         depth: nat)
    requires Represents(p, t, m) && DistinctKeys(es)
    requires forall i | 0 <= i < |es| :: es[i].key < p.empty && es[i].key !in m
    requires t.lg <= level <= t.lg + depth && Fits(p, (m + ToMap(es)).Keys, level)
    ensures var r := ReinsertRun(p, t, es, depth); r.Some? && r.value.lg <= level
    decreases depth, 1, |es|
  {
    hide Holds, TryPlace, Fits;
    HoldsOk(p, t, m);
    if es == [] {
    } else {
      var m' := m[es[0].key := es[0].value];
      ToMapKeys(es);
      FitsSubset(p, m.Keys + {es[0].key}, (m + ToMap(es)).Keys, level);
      InsertStops(p, t, m, es[0], level, depth);
      InsertRefines(p, t, m, es[0], depth);
      FirstEntry(p, m, es);
      ReinsertStops(p, InsertRun(p, t, es[0], depth).value, m', es[1..], level, depth);
    }
  }

  /** Cutting off deeper changes nothing: the run that stops is the run. */
  lemma {:induction false} InsertRunStable(p: Params, t: SlotTable, e: Entry, depth: nat, deeper: nat)
    requires TableOk(p, t) && e.key <= p.empty && depth <= deeper && InsertRun(p, t, e, depth).Some?
    ensures InsertRun(p, t, e, deeper) == InsertRun(p, t, e, depth)
    decreases depth, 0, 0
  {
    if TryPlace(p, t, e.key, e.value).None? {
      GrowRunStable(p, t, depth - 1, deeper - 1);
      InsertRunStable(p, GrowRun(p, t, depth - 1).value, e, depth - 1, deeper - 1);
    }
  }

  lemma {:induction false} GrowRunStable(p: Params, t: SlotTable, depth: nat, deeper: nat)
    requires TableOk(p, t) && depth <= deeper && GrowRun(p, t, depth).Some?
    ensures GrowRun(p, t, deeper) == GrowRun(p, t, depth)
    decreases depth, 2, 0
  {
    EntriesInRange(p, t, 0);
    ReinsertRunStable(p, EmptyTable(p, t.lg + 1), EntriesFrom(p, t, 0), depth, deeper);
  }

  lemma {:induction false} ReinsertRunStable(p: Params, t: SlotTable, es: seq<Entry>, depth: nat, deeper: nat)
    requires TableOk(p, t) && InRange(p, es)
    requires depth <= deeper && ReinsertRun(p, t, es, depth).Some?
    ensures ReinsertRun(p, t, es, deeper) == ReinsertRun(p, t, es, depth)
    decreases depth, 1, |es|
  {
    if es == [] {
    } else {
      InsertRunStable(p, t, es[0], depth, deeper);
      ReinsertRunStable(p, InsertRun(p, t, es[0], depth).value, es[1..], depth, deeper);
    }
  }

  /** The cells that keys with hash h can be in: those of one slot for the hash 0, else of two. */
  function RoomFor(p: Params, h: Word): nat {
    if h == 0 then p.bucket else 2 * p.bucket
  }

  ghost predicate AllHashTo(p: Params, keys: set<int>, h: Word) {
    forall k | k in keys :: p.hash(k) == h
  }

  /** The hash 0 names slot 0 twice, at every level. */
  lemma ZeroNamesOneSlot(p: Params, k: int, lg: nat)
    requires p.hash(k) == 0
    ensures Index1(p, k, lg) == Index2(p, k, lg) == 0
  {
    ShiftIsDivision(0, 32);
    MaskIsMod(0, lg);
  }

  /** Any other hash names two slots from level 64 on. */
  lemma OthersNameTwo(p: Params, k: int, lg: nat)
    requires p.hash(k) != 0 && lg >= 64
    ensures Index1(p, k, lg) != Index2(p, k, lg)
  {
    var h := p.hash(k);
    Pow2Word();
    Pow2Monotone(64, lg);
    ShiftIsDivision(h, 32);
    MaskIsMod(h, lg);
    MaskIsMod(ShiftRight(h, 32), lg);
    WordModPower(h, Pow2(lg));
    WordModPower(h / 0x1_0000_0000, Pow2(lg));
  }

  lemma WordModPower(x: nat, d: nat)
    requires x < WORD <= d
    ensures x % d == x
  {
    ModUnique(x, d, 0, x);
  }

  /** Keys with one hash share their slots at every level, so a table holds no more of them than those have cells. */
  lemma SameHashBound(p: Params, t: SlotTable, m: map<int, Word>, same: set<int>, h: Word)
    requires Represents(p, t, m) && same <= m.Keys && AllHashTo(p, same, h)
    ensures |same| <= RoomFor(p, h)
  {
    HoldsOk(p, t, m);
    if |same| > 0 {
      var k := Pick(same);
      var s1, s2 := Index1(p, k, t.lg), Index2(p, k, t.lg);
      var n1, n2 := Used(p, t.slots[s1]), Used(p, t.slots[s2]);
      KeysOfAt(t.slots[s1], n1);
      KeysOfAt(t.slots[s2], n2);
      var both := KeysOf(t.slots[s1], n1) + KeysOf(t.slots[s2], n2);
      forall k' | k' in same ensures k' in both {
        StoredInPair(p, t, m, k');
      }
      SubsetSize(same, both);
      if h == 0 {
        ZeroNamesOneSlot(p, k, t.lg);
        assert both == KeysOf(t.slots[s1], n1);
      }
    }
  }

  lemma StoredInPair(p: Params, t: SlotTable, m: map<int, Word>, k: int)
    requires Holds(p, t, m) && k in m
    ensures var s1, s2 := Index1(p, k, t.lg), Index2(p, k, t.lg);
            k in KeysOf(t.slots[s1], Used(p, t.slots[s1])) + KeysOf(t.slots[s2], Used(p, t.slots[s2]))
  {
    hide Index1, Index2;
    assert StoredIn(p, t, k);
    var s: nat, i: nat :| Cell(p, t, s, i) && t.slots[s].keys[i] == k;
    assert CellOk(p, t, m, s, i);
    KeysOfAt(t.slots[s], Used(p, t.slots[s]));
  }

  /** With more keys of one hash than cells for them, insert never stops, whatever depth of grow calls it is given. */
  lemma InsertDiverges(p: Params, t: SlotTable, m: map<int, Word>, e: Entry, same: set<int>, h: Word, depth: nat)
    requires Represents(p, t, m) && e.key !in m && e.key < p.empty
    requires same <= m.Keys + {e.key} && AllHashTo(p, same, h) && |same| > RoomFor(p, h)
    ensures TableOk(p, t) && InsertRun(p, t, e, depth).None?
  {
    hide Holds, AllHashTo;
    RepresentsOk(p, t, m);
    InsertRefines(p, t, m, e, depth);
    var r := InsertRun(p, t, e, depth);
    if r.Some? {
      assert same <= m[e.key := e.value].Keys;
      SameHashBound(p, r.value, m[e.key := e.value], same, h);
    }
  }

  /** As many keys of one hash as cells for them fit: the hash 0 at any level, another from level 64 on. */
  lemma SameHashFits(p: Params, keys: set<int>, h: Word, lg: nat)
    requires AllHashTo(p, keys, h) && |keys| <= RoomFor(p, h) && (h == 0 || lg >= 64)
    ensures Fits(p, keys, lg)
  {
    hide Index1, Index2;
    forall k | k in keys ensures KeyFits(p, keys, k, lg) {
      var s1, s2 := Index1(p, k, lg), Index2(p, k, lg);
      SubsetSize(Naming(p, keys, s1, lg), keys);
      SubsetSize(Naming(p, keys, s1, lg) + Naming(p, keys, s2, lg), keys);
      if h != 0 {
        OthersNameTwo(p, k, lg);
      }
    }
  }

  /** For keys that all share one hash, insert stops if and only if they do not exceed the cells for that hash. */
  lemma SameHashExact(p: Params, t: SlotTable, m: map<int, Word>, e: Entry, h: Word)
    requires Represents(p, t, m) && TableOk(p, t) && e.key !in m && e.key < p.empty
    requires AllHashTo(p, m.Keys + {e.key}, h)
    ensures (exists depth: nat :: InsertRun(p, t, e, depth).Some?) <==> |m| + 1 <= RoomFor(p, h)
  {
    hide *;
    var keys := m.Keys + {e.key};
    NewKeyCount(m, e.key);
    if |keys| <= RoomFor(p, h) {
      var level := if h == 0 || t.lg >= 64 then t.lg else 64;
      SameHashFits(p, keys, h, level);
      InsertStops(p, t, m, e, level, level - t.lg);
    } else {
      forall depth: nat ensures InsertRun(p, t, e, depth).None? {
        InsertDiverges(p, t, m, e, keys, h, depth);
      }
    }
  }

  lemma NewKeyCount(m: map<int, Word>, k: int)
    requires k !in m
    ensures |m.Keys + {k}| == |m| + 1
  {
    assert |m.Keys| == |m|;
  }

  /** A table that cannot take another key: one cell to a slot, every hash 0, and key 0 stored. */
  ghost function OneCell(): Params { Params(1, 1000, k => 0) }

  ghost function OneKey(): SlotTable {
    PutTable(EmptyTable(OneCell(), 3), 0, 0, 0, 7)
  }

  /** It is what inserting key 0 into a new table gives, and inserting key 1 into it never stops. */
  lemma NeverStops(depth: nat)
    ensures TableOk(OneCell(), EmptyTable(OneCell(), 3)) && TableOk(OneCell(), OneKey())
    ensures InsertRun(OneCell(), EmptyTable(OneCell(), 3), Entry(0, 7), 0) == Some(OneKey())
    ensures Represents(OneCell(), OneKey(), map[0 := 7])
    ensures InsertRun(OneCell(), OneKey(), Entry(1, 8), depth).None?
  {
    var p, t0 := OneCell(), EmptyTable(OneCell(), 3);
    EmptyRepresents(p, 3);
    RepresentsOk(p, t0, map[]);
    ZeroNamesOneSlot(p, 0, 3);
    FirstPlacement(p, t0);
    PlaceRepresents(p, t0, map[], Entry(0, 7));
    assert map[][0 := 7] == map[0 := 7 as Word];
    assert Represents(p, OneKey(), map[0 := 7]);
    InsertDiverges(p, OneKey(), map[0 := 7], Entry(1, 8), {0, 1}, 0, depth);
  }

  lemma FirstPlacement(p: Params, t: SlotTable)
    requires p == OneCell() && t == EmptyTable(p, 3) && TableOk(p, t) && Index1(p, 0, 3) == Index2(p, 0, 3) == 0
    ensures TryPlace(p, t, 0, 7) == Some(OneKey())
  {
    UsedIs(p, t.slots[0], 0);
  }
}

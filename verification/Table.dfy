/** The hash map over the open-addressing arrays, as a refinement of a finite map. */
module Table {
  import opened Words
  import opened Wrappers
  import opened SizePolicy
  import opened Group
  import opened TableInvariant
  import opened TableCore

  class Table<K(==, 0), V(0)> {
    const hash: K -> Word
    var arrays: TableArrays<K, V>
    var ml: nat
    var size: nat
    ghost var Contents: map<K, V>

    ghost function Repr(): set<object>
      reads this
    {
      {this, arrays.groups, arrays.elements}
    }

    /** The arrays hold exactly Contents, and size counts them; 0 <= size <= ml <= capacity. */
    ghost predicate Valid()
      reads this, arrays.groups, arrays.elements
    {
      && arrays.Valid(hash, Contents)
      && size == |Contents|
      && size <= ml <= arrays.Capacity()
      && size <= MAX_ELEMENTS
    }

    constructor (n: nat, hash: K -> Word)
      requires n <= MAX_ELEMENTS
      ensures Valid() && fresh(Repr()) && this.hash == hash
      ensures Contents == map[]
      ensures if n == 0 then arrays.Capacity() == 0
              else IsCapacity(arrays.Capacity()) && arrays.Capacity() >= n
                   && forall c: nat | IsCapacity(c) && c >= n :: arrays.Capacity() <= c
      ensures if arrays.Capacity() <= 29 then ml == arrays.Capacity()
              else 8 * ml <= 7 * arrays.Capacity() < 8 * (ml + 1)
    {
      this.hash := hash;
      var a := NewArrays(n, hash);
      arrays := a;
      ml := InitialMaxLoad(a.Capacity());
      size := 0;
      Contents := map[];
      CapacityForLeast(n);
      MaxLoadIs(a.Capacity());
    }

    method Find(x: K) returns (loc: Option<Locator>)
      requires Valid()
      ensures loc.Some? <==> x in Contents
      ensures loc.Some? ==> arrays.HoldsAt(loc.value, Element(x, Contents[x]))
    {
      var h := hash(x);
      loc := FindIn(arrays.groups[..], arrays.elements[..], arrays.groupsSizeIndex, x, arrays.PositionFor(h), h,
                    hash, Contents);
    }

    /** Inserts unless the key is present; either way the slot returned holds the key. */
    method EmplaceImpl(x: Element<K, V>) returns (loc: Locator, inserted: bool)
      requires Valid() && size < MAX_ELEMENTS
      modifies Repr()
      ensures Valid() && fresh(Repr() - old(Repr()))
      ensures inserted <==> x.key !in old(Contents)
      ensures Contents == if inserted then old(Contents)[x.key := x.value] else old(Contents)
      ensures arrays.HoldsAt(loc, Element(x.key, Contents[x.key]))
      ensures !inserted || old(size) < old(ml) ==> arrays == old(arrays) && ml == old(ml)
      ensures inserted && old(size) == old(ml) ==>
                var n := old(size) + old(size) / 61 + 1;
                && IsCapacity(arrays.Capacity()) && 7 * arrays.Capacity() >= 8 * n
                && (forall c: nat | IsCapacity(c) && 7 * c >= 8 * n :: arrays.Capacity() <= c)
                && fresh(arrays.groups) && fresh(arrays.elements)
                && if arrays.Capacity() <= 29 then ml == arrays.Capacity()
                   else 8 * ml <= 7 * arrays.Capacity() < 8 * (ml + 1)
    {
      hide Searchable, CellCount, IsCapacity, CapacityFor, CeilOverMlf, InitialMaxLoad, Position;
      var h := hash(x.key);
      var pos0 := arrays.PositionFor(h);
      var found := FindIn(arrays.groups[..], arrays.elements[..], arrays.groupsSizeIndex, x.key, pos0, h, hash,
          Contents);
      if found.Some? {
        return found.value, false;
      }
      if size < ml {
        loc := UncheckedEmplaceAt(pos0, h, x);
      } else {
        ghost var n := size + size / 61 + 1;
        loc := UncheckedEmplaceWithRehash(h, x);
        RequestedCapacity(n);
        MaxLoadIs(arrays.Capacity());
      }
      inserted := true;
    }

    method UncheckedEmplaceAt(pos0: nat, h: Word, x: Element<K, V>) returns (loc: Locator)
      requires Valid() && size < ml && size < MAX_ELEMENTS
      requires x.key !in Contents && h == hash(x.key) && pos0 == arrays.PositionFor(h)
      modifies Repr()
      ensures Valid() && arrays == old(arrays) && ml == old(ml)
      ensures Contents == old(Contents)[x.key := x.value]
      ensures arrays.HoldsAt(loc, x)
    {
      MapInsertSize(Contents, x.key, x.value);
      loc := NosizeUncheckedEmplaceAt(arrays, x, hash, Contents, pos0, h);
      size := size + 1;
      Contents := Contents[x.key := x.value];
    }

    /** Insertion first, into the larger arrays; then everything else moves over. */
    method UncheckedEmplaceWithRehash(h: Word, x: Element<K, V>) returns (loc: Locator)
      requires Valid() && size < MAX_ELEMENTS
      requires x.key !in Contents && h == hash(x.key)
      modifies Repr()
      ensures Valid() && fresh(Repr() - old(Repr()))
      ensures Contents == old(Contents)[x.key := x.value]
      ensures arrays.Capacity() == CapacityFor(GrowthRequest(old(size))) && ml == InitialMaxLoad(arrays.Capacity())
      ensures fresh(arrays.groups) && fresh(arrays.elements)
      ensures arrays.HoldsAt(loc, x)
    {
      hide Searchable, CellCount, InitialMaxLoad, CapacityFor, GrowthRequest, Occ, KeepsCells, TookFirstFree;
      GrowthGivesRoom(size);
      MapInsertSize(Contents, x.key, x.value);
      var newArrays := NewArrays(GrowthRequest(size), hash);
      loc := NosizeUncheckedEmplaceAt(newArrays, x, hash, map[], newArrays.PositionFor(h), h);
      ghost var gs, es := newArrays.groups[..], newArrays.elements[..];
      UncheckedRehash(newArrays, map[x.key := x.value]);
      KeptCell(gs, es, arrays.groups[..], arrays.elements[..], loc.pg, loc.n);
      EntryFirst(old(Contents), x.key, x.value);
      size := size + 1;
    }

    /** Moves all elements over and drops the old arrays. m0 is what the new arrays already hold. */
    method UncheckedRehash(newArrays: TableArrays<K, V>, ghost m0: map<K, V>)
      requires Valid() && newArrays.Valid(hash, m0) && Contents.Keys !! m0.Keys
      requires |Contents| + |m0| <= newArrays.Capacity()
      requires newArrays.groups != arrays.groups && newArrays.elements != arrays.elements
      modifies Repr(), newArrays.groups, newArrays.elements
      ensures arrays == newArrays && arrays.Valid(hash, Contents)
      ensures Contents == m0 + old(Contents) && size == old(size)
      ensures ml == InitialMaxLoad(arrays.Capacity())
      ensures newArrays.elements.Length != 0 ==>
                KeepsCells(old(newArrays.groups[..]), old(newArrays.elements[..]), newArrays.groups[..],
                    newArrays.elements[..])
    {
      TransferElements(arrays, newArrays, hash, Contents, m0);
      arrays := newArrays;
      ml := InitialMaxLoad(arrays.Capacity());
      Contents := m0 + Contents;
    }

    method Erase(x: K) returns (erased: nat)
      requires Valid()
      modifies Repr()
      ensures Valid() && arrays == old(arrays)
      ensures erased == if x in old(Contents) then 1 else 0
      ensures Contents == old(Contents) - {x}
      ensures erased == 0 ==> ml == old(ml) && arrays.groups[..] == old(arrays.groups[..])
      ensures erased == 1 ==> exists loc: Locator ::
                && old(arrays.HoldsAt(loc, Element(x, Contents[x])))
                && ml == old(ml) - (if MaybeCausedOverflow(old(arrays.groups[loc.pg]), loc.n) then 1 else 0)
                && arrays.groups[..] == old(arrays.groups[..])[loc.pg := Reset(old(arrays.groups[loc.pg]), loc.n)]
    {
      var loc := Find(x);
      if loc.Some? {
        EraseAt(loc.value, Element(x, Contents[x]));
        erased := 1;
      } else {
        assert Contents - {x} == Contents;
        erased := 0;
      }
    }

    /** Frees the slot. The maximum load drops by one if the slot's group has overflowed for
        elements sharing its hash modulo 8, and never below the new size. */
    method EraseAt(loc: Locator, ghost x: Element<K, V>)
      requires Valid() && arrays.HoldsAt(loc, x)
      modifies Repr()
      ensures Valid() && arrays == old(arrays)
      ensures x.key in old(Contents) && Contents == old(Contents) - {x.key}
      ensures ml == old(ml) - (if MaybeCausedOverflow(old(arrays.groups[loc.pg]), loc.n) then 1 else 0)
      ensures arrays.groups[..] == old(arrays.groups[..])[loc.pg := Reset(old(arrays.groups[loc.pg]), loc.n)]
      ensures arrays.elements[..] == old(arrays.elements[..])
    {
      ghost var gs, es := arrays.groups[..], arrays.elements[..];
      EmptyKeepsTable(gs, es, arrays.groupsSizeIndex, hash, Contents, loc.pg, loc.n);
      MapRemoveSize(Contents, x.key);
      if MaybeCausedOverflow(arrays.groups[loc.pg], loc.n) {
        ml := ml - 1;
      }
      arrays.groups[loc.pg] := Reset(arrays.groups[loc.pg], loc.n);
      size := size - 1;
      assert arrays.groups[..] == gs[loc.pg := Reset(gs[loc.pg], loc.n)];
      Contents := Contents - {x.key};
    }

    /** Wipes the metadata, overflow bytes included, and restores the maximum load. */
    method Clear()
      requires Valid()
      modifies Repr()
      ensures Valid() && arrays == old(arrays)
      ensures Contents == map[]
      ensures if arrays.Capacity() <= 29 then ml == arrays.Capacity()
              else 8 * ml <= 7 * arrays.Capacity() < 8 * (ml + 1)
      ensures forall g | 0 <= g < arrays.groups.Length && arrays.elements.Length != 0 ::
                arrays.groups[g] == if g == arrays.groups.Length - 1 then SetSentinel(Initialized()) else Initialized()
    {
      if arrays.elements.Length != 0 {
        var groups := arrays.groups;
        var pg := 0;
        while pg != arrays.groupsSizeMask + 1
          invariant pg <= groups.Length && arrays == old(arrays) && groups == arrays.groups
          invariant arrays.elements[..] == old(arrays.elements[..])
          invariant forall g | 0 <= g < pg :: groups[g] == Initialized()
          decreases groups.Length - pg
        {
          groups[pg] := Initialized();
          pg := pg + 1;
        }
        groups[arrays.groupsSizeMask] := SetSentinel(groups[arrays.groupsSizeMask]);
        FreshTable(groups[..], arrays.elements[..], arrays.groupsSizeIndex, hash);
        ml := InitialMaxLoad(arrays.Capacity());
        MaxLoadIs(arrays.Capacity());
        size := 0;
        Contents := map[];
      }
    }

    /** Reallocates for max(n, ceil(size / mlf)) elements, unless that is the current capacity. */
    method Rehash(n: nat)
      requires Valid() && n <= 2 * MAX_ELEMENTS
      modifies Repr()
      ensures Valid() && fresh(Repr() - old(Repr()))
      ensures Contents == old(Contents)
      ensures if n == size == 0 then arrays.Capacity() == 0
              else IsCapacity(arrays.Capacity()) && arrays.Capacity() >= n && 7 * arrays.Capacity() >= 8 * size
                   && forall c: nat | IsCapacity(c) && c >= n && 7 * c >= 8 * size :: arrays.Capacity() <= c
      ensures arrays.Capacity() == old(arrays.Capacity()) ==> arrays == old(arrays) && ml == old(ml)
      ensures arrays.Capacity() != old(arrays.Capacity()) ==>
                if arrays.Capacity() <= 29 then ml == arrays.Capacity()
                else 8 * ml <= 7 * arrays.Capacity() < 8 * (ml + 1)
    {
      hide Searchable, CellCount, Occ, InitialMaxLoad, CapacityFor;
      var least := if n > CeilOverMlf(size) then n else CeilOverMlf(size);
      RehashRequest(size, least);
      CapacityForLeast(least);
      MaxLoadIs(CapacityFor(least));
      MaxLoadIs(0);
      forall c: nat ensures c >= least <==> c >= n && 7 * c >= 8 * size {
        RequestIs(size, c);
      }
      var capacity := if least != 0 then CapacityFor(least) else 0;
      if capacity != arrays.Capacity() {
        var newArrays := NewArrays(capacity, hash);
        UncheckedRehash(newArrays, map[]);
        assert map[] + old(Contents) == old(Contents);
      }
    }

    /** The capacity kept or allocated has an initial maximum load of at least n. The present maximum load
        is at least n exactly if arrays of another capacity were allocated or it was so before: arrays
        that are kept also keep what erasures took off it. */
    method Reserve(n: nat)
      requires Valid() && n <= MAX_ELEMENTS
      modifies Repr()
      ensures Valid() && fresh(Repr() - old(Repr()))
      ensures Contents == old(Contents)
      ensures if n == size == 0 then arrays.Capacity() == 0
              else IsCapacity(arrays.Capacity()) && 7 * arrays.Capacity() >= 8 * n && 7 * arrays.Capacity() >= 8 * size
                   && forall c: nat | IsCapacity(c) && 7 * c >= 8 * n && 7 * c >= 8 * size :: arrays.Capacity() <= c
      ensures ml >= n <==> arrays.Capacity() != old(arrays.Capacity()) || old(ml) >= n
      ensures arrays.Capacity() == old(arrays.Capacity()) ==> arrays == old(arrays) && ml == old(ml)
    {
      forall c: nat ensures c >= CeilOverMlf(n) <==> 7 * c >= 8 * n {
        RequestIs(n, c);
      }
      Rehash(CeilOverMlf(n));
    }
  }

  /** The capacity computed for a rehash can be allocated, reproduces itself, and admits the current size. */
  lemma RehashRequest(size: nat, least: nat)
    requires size <= MAX_ELEMENTS && CeilOverMlf(size) <= least <= 2 * MAX_ELEMENTS
    ensures least <= CapacityFor(least) <= 16 * MAX_ELEMENTS
    ensures CapacityFor(CapacityFor(least)) == CapacityFor(least)
    ensures least != 0 ==> size <= InitialMaxLoad(CapacityFor(least)) <= CapacityFor(least)
    ensures least == 0 ==> size == 0 == InitialMaxLoad(0)
  {
    CapacityForCovers(least);
    CapacityForIdempotent(least);
    Pow2Word();
    assert Pow2(64) == 16 * Pow2(60);
    CapacityForBound(least, 60);
    RequestCoversSize(size, least);
  }

  /** The capacity for a request of ceil(n / mlf) elements, without its name. */
  lemma RequestedCapacity(n: nat)
    ensures var cap := CapacityFor(CeilOverMlf(n));
            && IsCapacity(cap) && 7 * cap >= 8 * n
            && forall c: nat | IsCapacity(c) && 7 * c >= 8 * n :: cap <= c
  {
    hide CapacityFor, IsCapacity;
    CapacityForLeast(CeilOverMlf(n));
    forall c: nat ensures c >= CeilOverMlf(n) <==> 7 * c >= 8 * n {
      RequestIs(n, c);
    }
  }

  /** n entries are within the load of capacity c: all of a small table, 7/8 of a large one. */
  predicate WithinLoad(n: nat, c: nat) {
    if c <= 29 then n <= c else 8 * n <= 7 * c
  }

  lemma LoadNext(ml: nat, c: nat, n: nat, kept: bool)
    requires InitialLoad(ml, c) && n <= ml
    ensures WithinLoad(n, c)
    ensures n < ml <==> WithinLoad(n + 1, c)
    ensures LeastFor(kept, n, c) && n < ml ==> LeastFor(kept, n + 1, c)
    ensures forall d: nat :: WithinLoad(n + 1, d) ==> WithinLoad(n, d)
  {
    hide IsCapacity;
  }

  lemma AllocatedCapacity<K(0), V(0)>(t: Table<K, V>)
    requires t.Valid()
    ensures t.arrays.Capacity() == 0 || IsCapacity(t.arrays.Capacity())
  {
    if t.arrays.elements.Length != 0 {
      assert t.arrays.elements[..] != [];
      assert t.arrays.Capacity() == 15 * Pow2(64 - t.arrays.groupsSizeIndex) - 1;
    }
  }

  /** A table at full load grows to the least capacity whose load admits one more entry. */
  lemma GrowsToNext(c: nat, n: nat, d: nat)
    requires c == 0 || IsCapacity(c)
    requires WithinLoad(n, c) && !WithinLoad(n + 1, c)
    requires IsCapacity(d) && 7 * d >= 8 * (n + n / 61 + 1)
    requires forall e: nat | IsCapacity(e) && 7 * e >= 8 * (n + n / 61 + 1) :: d <= e
    ensures LeastFor(false, n + 1, d)
  {
    hide IsCapacity;
    NextCapacity(d, d);
    forall e: nat | IsCapacity(e) && WithinLoad(n + 1, e) ensures d <= e {
      NextCapacity(e, d);
      if c != 0 {
        NextCapacity(c, e);
        assert e > c;
        assert 7 * (2 * c + 1) >= 8 * (n + n / 61 + 1);
      }
    }
  }

  /** A table that holds exactly the first n entries of xs. */
  ghost predicate FilledTo<K, V>(m: map<K, V>, xs: seq<Element<K, V>>, n: nat)
    requires n <= |xs|
  {
    && (forall k :: k in m ==> exists j :: 0 <= j < n && xs[j].key == k)
    && (forall j | 0 <= j < n :: xs[j].key in m && m[xs[j].key] == xs[j].value)
  }

  lemma FilledNext<K, V>(m: map<K, V>, xs: seq<Element<K, V>>, n: nat)
    requires n < |xs| && FilledTo(m, xs, n)
    requires forall i, j | 0 <= i < j < |xs| :: xs[i].key != xs[j].key
    ensures xs[n].key !in m && FilledTo(m[xs[n].key := xs[n].value], xs, n + 1)
  {
  }

  /** The maximum load of arrays just allocated or cleared, for their capacity. */
  predicate InitialLoad(ml: nat, c: nat) {
    if c <= 29 then ml == c else 8 * ml <= 7 * c < 8 * (ml + 1)
  }

  /** No smaller capacity admits n entries, if the table has left its first arrays. */
  ghost predicate LeastFor(kept: bool, n: nat, c: nat) {
    !kept ==> IsCapacity(c) && WithinLoad(n, c) && forall d: nat | IsCapacity(d) && WithinLoad(n, d) :: c <= d
  }

  /** Filling a table that is new, or has been cleared, with n different keys keeps its arrays exactly while n is
      within their load; otherwise it ends with the least capacity whose load admits n. */
  method Fill<K(==, 0), V(0)>(t: Table<K, V>, xs: seq<Element<K, V>>)
    requires t.Valid() && t.Contents == map[] && |xs| <= MAX_ELEMENTS
    requires if t.arrays.Capacity() <= 29 then t.ml == t.arrays.Capacity()
             else 8 * t.ml <= 7 * t.arrays.Capacity() < 8 * (t.ml + 1)
    requires forall i, j | 0 <= i < j < |xs| :: xs[i].key != xs[j].key
    modifies t.Repr()
    ensures t.Valid() && t.size == |xs|
    ensures forall i | 0 <= i < |xs| :: xs[i].key in t.Contents && t.Contents[xs[i].key] == xs[i].value
    ensures t.arrays == old(t.arrays) <==> WithinLoad(|xs|, old(t.arrays.Capacity()))
    ensures t.arrays != old(t.arrays) ==>
              && IsCapacity(t.arrays.Capacity()) && WithinLoad(|xs|, t.arrays.Capacity())
              && forall c: nat | IsCapacity(c) && WithinLoad(|xs|, c) :: t.arrays.Capacity() <= c
  {
    hide Searchable, CellCount, Filling, FilledTo, LeastFor, WithinLoad, IsCapacity;
    FillingStart(t, xs);
    var i := 0;
    ghost var kept, c0 := true, t.arrays.Capacity();
    while i < |xs|
      invariant 0 <= i <= |xs| && t.Valid() && fresh(t.Repr() - old(t.Repr()))
      invariant if kept then t.arrays == old(t.arrays) else fresh(t.arrays.groups) && fresh(t.arrays.elements)
      invariant Filling(t, xs, i, c0, kept)
    {
      kept := FillStep(t, xs, i, c0, kept);
      i := i + 1;
    }
    FillingEnd(t, xs, c0, kept);
  }

  lemma FillingStart<K(0), V(0)>(t: Table<K, V>, xs: seq<Element<K, V>>)
    requires t.Valid() && t.Contents == map[] && InitialLoad(t.ml, t.arrays.Capacity())
    ensures Filling(t, xs, 0, t.arrays.Capacity(), true)
  {
  }

  lemma FillingEnd<K(0), V(0)>(t: Table<K, V>, xs: seq<Element<K, V>>, c0: nat, kept: bool)
    requires Filling(t, xs, |xs|, c0, kept)
    ensures t.size == |xs| && (kept <==> WithinLoad(|xs|, c0))
    ensures forall i | 0 <= i < |xs| :: xs[i].key in t.Contents && t.Contents[xs[i].key] == xs[i].value
    ensures var cap := t.arrays.Capacity();
            !kept ==> IsCapacity(cap) && WithinLoad(|xs|, cap)
                      && forall c: nat | IsCapacity(c) && WithinLoad(|xs|, c) :: cap <= c
  {
  }

  ghost predicate Filling<K(0), V(0)>(t: Table<K, V>, xs: seq<Element<K, V>>, i: nat, c0: nat, kept: bool)
    requires i <= |xs|
    reads t, t.arrays.elements
  {
    && t.size == i && InitialLoad(t.ml, t.arrays.Capacity()) && FilledTo(t.Contents, xs, i)
    && (kept <==> WithinLoad(i, c0)) && (kept ==> t.arrays.Capacity() == c0)
    && LeastFor(kept, i, t.arrays.Capacity())
  }

  method FillStep<K(==, 0), V(0)>(t: Table<K, V>, xs: seq<Element<K, V>>, i: nat, ghost c0: nat, ghost kept: bool)
    returns (ghost kept': bool)
    requires t.Valid() && i < |xs| <= MAX_ELEMENTS
    requires forall i, j | 0 <= i < j < |xs| :: xs[i].key != xs[j].key
    requires Filling(t, xs, i, c0, kept)
    modifies t.Repr()
    ensures t.Valid() && fresh(t.Repr() - old(t.Repr()))
    ensures Filling(t, xs, i + 1, c0, kept')
    ensures kept' ==> kept && t.arrays == old(t.arrays)
    ensures t.arrays == old(t.arrays) && kept ==> kept'
    ensures t.arrays == old(t.arrays) || (fresh(t.arrays.groups) && fresh(t.arrays.elements))
  {
    hide Searchable, CellCount, IsCapacity, FilledTo, LeastFor, WithinLoad;
    ghost var c := t.arrays.Capacity();
    AllocatedCapacity(t);
    FilledNext(t.Contents, xs, i);
    GrowsByOne(t.Contents, xs[i].key, xs[i].value);
    LoadNext(t.ml, c, i, kept);
    kept' := kept && t.size < t.ml;
    ghost var full := t.size == t.ml;
    var _, _ := t.EmplaceImpl(xs[i]);
    if full {
      GrowsToNext(c, i, t.arrays.Capacity());
    }
  }

  /** The operations of a run, and what they do to a finite map. */
  datatype Op<K, V> =
    | EmplaceOp(key: K, value: V)
    | EraseOp(key: K)
    | ClearOp
    | RehashOp(n: nat)
    | ReserveOp(n: nat)

  ghost function ApplyOp<K, V>(m: map<K, V>, op: Op<K, V>): map<K, V> {
    match op
    case EmplaceOp(k, v) => if k in m then m else m[k := v]
    case EraseOp(k) => m - {k}
    case ClearOp => map[]
    case RehashOp(_) => m
    case ReserveOp(_) => m
  }

  ghost function ApplyAll<K, V>(m: map<K, V>, ops: seq<Op<K, V>>): map<K, V>
    decreases |ops|
  {
    if ops == [] then m else ApplyAll(ApplyOp(m, ops[0]), ops[1..])
  }

  /** Every run of operations leaves a table that refines the map after the same operations. */
  method Run<K(==, 0), V(0)>(t: Table<K, V>, ops: seq<Op<K, V>>)
    requires t.Valid() && t.size + |ops| <= MAX_ELEMENTS
    requires forall i | 0 <= i < |ops| :: (ops[i].RehashOp? || ops[i].ReserveOp?) ==> ops[i].n <= MAX_ELEMENTS
    modifies t.Repr()
    ensures t.Valid() && fresh(t.Repr() - old(t.Repr()))
    ensures t.Contents == ApplyAll(old(t.Contents), ops)
  {
    var i := 0;
    while i < |ops|
      invariant 0 <= i <= |ops|
      invariant t.Valid() && fresh(t.Repr() - old(t.Repr()))
      invariant t.size <= old(t.size) + i
      invariant ApplyAll(t.Contents, ops[i..]) == ApplyAll(old(t.Contents), ops)
    {
      assert ops[i..][1..] == ops[i + 1..];
      RunStep(t, ops[i]);
      i := i + 1;
    }
  }

  method RunStep<K(==, 0), V(0)>(t: Table<K, V>, op: Op<K, V>)
    requires t.Valid() && t.size < MAX_ELEMENTS
    requires op.RehashOp? || op.ReserveOp? ==> op.n <= MAX_ELEMENTS
    modifies t.Repr()
    ensures t.Valid() && fresh(t.Repr() - old(t.Repr()))
    ensures t.Contents == ApplyOp(old(t.Contents), op)
    ensures t.size <= old(t.size) + 1
  {
    hide Searchable, CellCount, InitialMaxLoad, CapacityFor, CeilOverMlf;
    match op {
      case EmplaceOp(k, v) =>
        GrowsByOne(t.Contents, k, v);
        var _, _ := t.EmplaceImpl(Element(k, v));
      case EraseOp(k) =>
        ShrinksOrStays(t.Contents, k);
        var _ := t.Erase(k);
      case ClearOp => t.Clear();
      case RehashOp(n) => t.Rehash(n);
      case ReserveOp(n) => t.Reserve(n);
    }
  }

  lemma EntryFirst<K, V>(m: map<K, V>, k: K, v: V)
    requires k !in m
    ensures map[k := v] + m == m[k := v]
  {
  }

  lemma GrowsByOne<K, V>(m: map<K, V>, k: K, v: V)
    ensures k !in m ==> |m[k := v]| == |m| + 1
  {
    if k !in m {
      MapInsertSize(m, k, v);
    }
  }

  lemma ShrinksOrStays<K, V>(m: map<K, V>, k: K)
    ensures |m - {k}| <= |m|
  {
    if k in m {
      MapRemoveSize(m, k);
    } else {
      assert m - {k} == m;
    }
  }
}

/** Iteration over the filled slots of the perfect hash table: cyclically from a
    remembered first slot, for as many steps as there are entries. */
module FphIterate {
  import opened FiniteSets
  import opened Words
  import opened Wrappers
  import opened FphIndex
  import opened FphSlots
  import opened FphState

  /** The marker test tells the filled slots. */
  ghost predicate MarksExact<K, V>(slots: seq<Slot<K, V>>, t: SlotTables, f: Fillers<K>) {
    |slots| == |t.place| && forall s: nat | s < |slots| :: slots[s].key == Marker(f, s) <==> !IsFilled(t, s)
  }

  /** The slot at cyclic distance d after pos. */
  function After(pos: nat, d: nat, m: nat): nat {
    Wrap(pos + d, m)
  }

  /** Distances add up. */
  lemma AfterAfter(pos: nat, d: nat, d': nat, m: nat)
    requires pos < m && d + d' < m
    ensures After(After(pos, d, m), d', m) == After(pos, d + d', m)
  {
  }

  /** All slots at cyclic distance 1 to d - 1 after pos are free. */
  ghost predicate FreeBetween(t: SlotTables, pos: nat, d: nat) {
    forall e: nat | 1 <= e < d && d <= |t.place| :: !IsFilled(t, After(pos, e, |t.place|))
  }

  /** The next filled slot in cyclic order, if there is another one. */
  method GetNextSlotAddress<K(==), V>(slots: seq<Slot<K, V>>, f: Fillers<K>, pos: nat, ghost t: SlotTables)
    returns (r: Option<nat>, ghost d: nat)
    requires pos < |slots| && MarksExact(slots, t, f)
    ensures 1 <= d <= |slots| && FreeBetween(t, pos, d)
    ensures r.Some? ==> d < |slots| && r.value == After(pos, d, |slots|) && IsFilled(t, r.value)
    ensures r.None? ==> d == |slots| && forall s: nat | s < |slots| && s != pos :: !IsFilled(t, s)
  {
    var p, dis := pos, 1;
    while dis < |slots|
      invariant 1 <= dis <= |slots| && p == After(pos, dis - 1, |slots|)
      invariant FreeBetween(t, pos, dis)
    {
      p := p + 1;
      if p >= |slots| {
        p := 0;
      }
      if slots[p].key != Marker(f, p) {
        return Some(p), dis;
      }
      dis := dis + 1;
    }
    r, d := None, dis;
    forall s: nat | s < |slots| && s != pos ensures !IsFilled(t, s) {
      var e := if s > pos then s - pos else s + |slots| - pos;
      assert After(pos, e, |t.place|) == s;
    }
  }

  /** The slots at cyclic distance up to d from begin have been visited as far as they are filled. */
  ghost predicate VisitedUpTo(t: SlotTables, begin: nat, d: nat, visited: seq<nat>) {
    && begin < |t.place| && d < |t.place|
    && NoDuplicates(visited)
    && (forall s: nat | s in visited :: IsFilled(t, s))
    && (forall e: nat | e < |t.place| && IsFilled(t, After(begin, e, |t.place|)) ::
          After(begin, e, |t.place|) in visited <==> e <= d)
  }

  ghost function Elements(xs: seq<nat>): set<nat> {
    set x | x in xs
  }

  lemma {:induction false} NoDuplicatesCount(xs: seq<nat>)
    requires NoDuplicates(xs)
    ensures |Elements(xs)| == |xs|
  {
    if xs == [] {
    } else {
      var ys, y := xs[..|xs| - 1], xs[|xs| - 1];
      NoDuplicatesCount(ys);
      assert xs == ys + [y];
      assert Elements(xs) == Elements(ys) + {y};
      assert y !in ys;
    }
  }

  /** While fewer slots have been visited than are filled, some filled slot lies ahead. */
  lemma MoreAhead(t: SlotTables, m: nat, begin: nat, d: nat, visited: seq<nat>) returns (e: nat)
    requires PermOk(t, m) && VisitedUpTo(t, begin, d, visited) && |visited| < t.filled
    ensures d < e < m && IsFilled(t, After(begin, e, m))
  {
    FilledCount(t, m);
    NoDuplicatesCount(visited);
    if FilledSet(t) <= Elements(visited) {
      SubsetSize(FilledSet(t), Elements(visited));
    }
    var s :| s in FilledSet(t) && s !in Elements(visited);
    e := if s >= begin then s - begin else s + m - begin;
    assert After(begin, e, m) == s;
  }

  /** One step of the iteration goes to the nearest filled slot ahead. */
  lemma VisitStep(t: SlotTables, m: nat, begin: nat, d: nat, visited: seq<nat>, step: nat, next: nat)
    requires PermOk(t, m) && VisitedUpTo(t, begin, d, visited) && |visited| < t.filled
    requires 1 <= step <= m && FreeBetween(t, After(begin, d, m), step)
    ensures d + step < m
    ensures next == After(After(begin, d, m), step, m) && IsFilled(t, next) ==>
              next == After(begin, d + step, m) && VisitedUpTo(t, begin, d + step, visited + [next])
  {
    var e := MoreAhead(t, m, begin, d, visited);
    AfterAfter(begin, d, e - d, m);
    if next == After(After(begin, d, m), step, m) && IsFilled(t, next) {
      var visited' := visited + [next];
      AfterAfter(begin, d, step, m);
      assert next !in visited;
      forall e': nat | e' < m && IsFilled(t, After(begin, e', m))
        ensures After(begin, e', m) in visited' <==> e' <= d + step
      {
        if d < e' < d + step {
          AfterAfter(begin, d, e' - d, m);
        }
      }
    }
  }

  /** for (it = begin(); it != end(); ++it): visits every filled slot exactly once. */
  method CollectSlots<K(==), V>(slots: seq<Slot<K, V>>, f: Fillers<K>, begin: Option<nat>, size: nat,
                                ghost t: SlotTables)
    returns (visited: seq<nat>)
    requires PermOk(t, |slots|) && MarksExact(slots, t, f) && size == t.filled
    requires begin == None <==> size == 0
    requires begin.Some? ==> begin.value < |slots| && IsFilled(t, begin.value)
    ensures NoDuplicates(visited) && |visited| == size
    ensures forall s: nat :: s in visited <==> IsFilled(t, s)
    ensures forall i | 0 <= i < |visited| :: visited[i] < |slots|
  {
    visited := [];
    if begin == None {
      FilledCount(t, |slots|);
      forall s: nat ensures !IsFilled(t, s) {
        assert s !in FilledSet(t);
      }
      return;
    }
    visited := [begin.value];
    assert VisitedUpTo(t, begin.value, 0, visited);
    var cur, count := begin.value, 1;
    ghost var d := 0;
    while count < size
      invariant 1 <= count <= size && |visited| == count
      invariant VisitedUpTo(t, begin.value, d, visited) && cur == After(begin.value, d, |slots|)
    {
      var next;
      ghost var step;
      next, step := GetNextSlotAddress(slots, f, cur, t);
      VisitStep(t, |slots|, begin.value, d, visited, step, if next.Some? then next.value else 0);
      cur := next.value;
      visited := visited + [cur];
      d := d + step;
      count := count + 1;
    }
    NoDuplicatesCount(visited);
    FilledCount(t, |slots|);
    assert Elements(visited) <= FilledSet(t);
    SubsetSameSize(Elements(visited), FilledSet(t));
    forall s: nat ensures s in visited <==> IsFilled(t, s) {
      assert s in Elements(visited) <==> s in FilledSet(t);
    }
    forall i | 0 <= i < |visited| ensures visited[i] < |slots| {
      assert visited[i] in visited;
    }
  }
}

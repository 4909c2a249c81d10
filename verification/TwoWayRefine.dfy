/** What the two-choice table stores, and that insert and grow refine a map
    through any nesting of grow calls. */
module TwoWayRefine {
  import opened FiniteSets
  import opened Words
  import opened Wrappers
  import opened TwoWayModel

  /** Cell i of slot s is in use. */
  ghost predicate Cell(p: Params, t: SlotTable, s: nat, i: nat)
    requires TableOk(p, t)
  {
    s < |t.slots| && i < p.bucket && t.slots[s].keys[i] != p.empty
  }

  ghost predicate CellOk(p: Params, t: SlotTable, m: map<int, Word>, s: nat, i: nat)
    requires TableOk(p, t) && Cell(p, t, s, i)
  {
    var k := t.slots[s].keys[i];
    k in m && m[k] == t.slots[s].values[i] && (s == Index1(p, k, t.lg) || s == Index2(p, k, t.lg))
  }

  ghost predicate StoredIn(p: Params, t: SlotTable, k: int)
    requires TableOk(p, t)
  {
    exists s: nat, i: nat :: Cell(p, t, s, i) && t.slots[s].keys[i] == k
  }

  /** The used cells hold exactly the entries of m, each in one place, which is one of its two slots. */
  ghost predicate Holds(p: Params, t: SlotTable, m: map<int, Word>) {
    && TableOk(p, t)
    && (forall s: nat, i: nat {:trigger Cell(p, t, s, i)} | Cell(p, t, s, i) :: CellOk(p, t, m, s, i))
    && (forall s: nat, i: nat, s': nat, i': nat {:trigger Cell(p, t, s, i), Cell(p, t, s', i')} |
          Cell(p, t, s, i) && Cell(p, t, s', i') && t.slots[s].keys[i] == t.slots[s'].keys[i'] :: s == s' && i == i')
    && (forall k {:trigger StoredIn(p, t, k)} | k in m :: StoredIn(p, t, k))
  }

  /** The table holds m, and size_ is the number of entries. */
  ghost predicate Represents(p: Params, t: SlotTable, m: map<int, Word>) {
    Holds(p, t, m) && t.size == |m|
  }

  lemma MapPlusSize(m: map<int, Word>, k: int, v: Word)
    requires k !in m
    ensures |m[k := v]| == |m| + 1
  {
    assert m[k := v].Keys == m.Keys + {k};
  }

  lemma MapMinusSize(m: map<int, Word>, k: int)
    requires k in m
    ensures |m - {k}| == |m| - 1
  {
    assert (m - {k}).Keys == m.Keys - {k};
  }

  /** Writing into the first empty cell of a slot adds that cell and touches no other. */
  lemma PutCells(p: Params, t: SlotTable, s: nat, k: int, v: Word)
    requires TableOk(p, t) && s < |t.slots| && Used(p, t.slots[s]) < p.bucket && k < p.empty
    ensures var n := Used(p, t.slots[s]);
            var t' := PutTable(t, s, n, k, v);
            && TableOk(p, t') && Cell(p, t', s, n) && t'.slots[s].keys[n] == k && t'.slots[s].values[n] == v
            && (forall s': nat, i: nat {:trigger Cell(p, t', s', i)} ::
                  Cell(p, t', s', i) <==> Cell(p, t, s', i) || (s' == s && i == n))
            && (forall s': nat, i: nat {:trigger Cell(p, t, s', i)} | Cell(p, t, s', i) ::
                  && Cell(p, t', s', i)
                  && t'.slots[s'].keys[i] == t.slots[s'].keys[i]
                  && t'.slots[s'].values[i] == t.slots[s'].values[i])
  {
    var n := Used(p, t.slots[s]);
    var slot := PutCell(t.slots[s], n, k, v);
    assert SlotOk(p, slot);
    var t' := PutTable(t, s, n, k, v);
    assert t'.slots[s] == slot && forall s' | 0 <= s' < |t.slots| && s' != s :: t'.slots[s'] == t.slots[s'];
  }

  /** Writing a new key into the first empty cell of one of its slots. */
  lemma PutHolds(p: Params, t: SlotTable, m: map<int, Word>, s: nat, k: int, v: Word)
    requires Holds(p, t, m) && k !in m && k < p.empty
    requires s == Index1(p, k, t.lg) || s == Index2(p, k, t.lg)
    requires Used(p, t.slots[s]) < p.bucket
    ensures Holds(p, PutTable(t, s, Used(p, t.slots[s]), k, v), m[k := v])
  {
    var n := Used(p, t.slots[s]);
    var t', m' := PutTable(t, s, n, k, v), m[k := v];
    PutCells(p, t, s, k, v);
    forall s': nat, i: nat | Cell(p, t, s', i) ensures t.slots[s'].keys[i] in m {
      assert CellOk(p, t, m, s', i);
    }
    assert t'.lg == t.lg;
    hide Index1, Index2, PutTable;
    forall s': nat, i: nat | Cell(p, t', s', i) ensures CellOk(p, t', m', s', i) {
      if !(s' == s && i == n) {
        assert Cell(p, t, s', i) && CellOk(p, t, m, s', i);
      }
    }
    forall k' | k' in m' ensures StoredIn(p, t', k') {
      if k' == k {
        assert Cell(p, t', s, n) && t'.slots[s].keys[n] == k;
      } else {
        assert StoredIn(p, t, k');
        var s': nat, i: nat :| Cell(p, t, s', i) && t.slots[s'].keys[i] == k';
        assert Cell(p, t', s', i) && t'.slots[s'].keys[i] == k';
      }
    }
  }

  lemma PlaceRepresents(p: Params, t: SlotTable, m: map<int, Word>, e: Entry)
    requires Represents(p, t, m) && e.key !in m && e.key < p.empty
    ensures var r := TryPlace(p, t, e.key, e.value); r.Some? ==> Represents(p, r.value, m[e.key := e.value])
  {
    hide Holds;
    assert TableOk(p, t) by { HoldsOk(p, t, m); }
    MapPlusSize(m, e.key, e.value);
    var s1, s2 := Index1(p, e.key, t.lg), Index2(p, e.key, t.lg);
    if Used(p, t.slots[s1]) < p.bucket {
      PutHolds(p, t, m, s1, e.key, e.value);
    }
    if Used(p, t.slots[s2]) < p.bucket {
      PutHolds(p, t, m, s2, e.key, e.value);
    }
  }

  lemma HoldsOk(p: Params, t: SlotTable, m: map<int, Word>)
    requires Holds(p, t, m)
    ensures TableOk(p, t)
  {
  }

  lemma RepresentsOk(p: Params, t: SlotTable, m: map<int, Word>)
    requires Represents(p, t, m)
    ensures TableOk(p, t) && p.bucket >= 1
  {
  }

  lemma EmptyRepresents(p: Params, lg: nat)
    requires p.bucket >= 1
    ensures Represents(p, EmptyTable(p, lg), map[])
  {
  }

  /** A list of entries as a map. */
  ghost function ToMap(es: seq<Entry>): map<int, Word> {
    if es == [] then map[] else ToMap(es[1..])[es[0].key := es[0].value]
  }

  ghost predicate DistinctKeys(es: seq<Entry>) {
    forall i, j | 0 <= i < j < |es| :: es[i].key != es[j].key
  }

  lemma {:induction false} ToMapKeys(es: seq<Entry>)
    ensures forall k :: k in ToMap(es) <==> exists i :: 0 <= i < |es| && es[i].key == k
    ensures DistinctKeys(es) ==> forall i | 0 <= i < |es| :: ToMap(es)[es[i].key] == es[i].value
  {
    if es == [] {
    } else {
      ToMapKeys(es[1..]);
      forall k ensures k in ToMap(es) <==> exists i :: 0 <= i < |es| && es[i].key == k {
        if i :| 0 <= i < |es| && es[i].key == k {
          assert i == 0 || es[1..][i - 1].key == k;
        }
        if k in ToMap(es[1..]) {
          var i :| 0 <= i < |es[1..]| && es[1..][i].key == k;
          assert es[i + 1].key == k;
        }
      }
      if DistinctKeys(es) {
        forall i | 0 <= i < |es| ensures ToMap(es)[es[i].key] == es[i].value {
          if i > 0 {
            assert es[1..][i - 1] == es[i];
          }
        }
      }
    }
  }

  /** The entry list of a slot from cell i: its j-th entry is cell i + j. */
  lemma {:induction false} SlotEntriesAt(p: Params, slot: Slot, i: nat)
    requires SlotOk(p, slot) && i <= p.bucket
    ensures var es := SlotEntries(p, slot, i);
            && i + |es| <= p.bucket
            && (forall j | 0 <= j < |es| ::
                  es[j] == Entry(slot.keys[i + j], slot.values[i + j]) && es[j].key != p.empty)
            && (forall j | i + |es| <= j < p.bucket :: slot.keys[j] == p.empty)
    decreases p.bucket - i
  {
    if i < p.bucket && slot.keys[i] != p.empty {
      SlotEntriesAt(p, slot, i + 1);
    }
  }

  /** Entry e comes from a used cell of a slot numbered at least s. */
  ghost predicate FromCell(p: Params, t: SlotTable, s: nat, e: Entry)
    requires TableOk(p, t)
  {
    exists s': nat, i: nat :: s <= s' && Cell(p, t, s', i) && e == Entry(t.slots[s'].keys[i], t.slots[s'].values[i])
  }

  /** The entry list of a table: one entry for each used cell, with distinct keys. */
  lemma {:induction false} EntriesAreCells(p: Params, t: SlotTable, m: map<int, Word>, s: nat)
    requires Represents(p, t, m) && s <= |t.slots|
    ensures forall j | 0 <= j < |EntriesFrom(p, t, s)| :: FromCell(p, t, s, EntriesFrom(p, t, s)[j])
    ensures forall s': nat, i: nat | s <= s' && Cell(p, t, s', i) ::
              Entry(t.slots[s'].keys[i], t.slots[s'].values[i]) in EntriesFrom(p, t, s)
    ensures DistinctKeys(EntriesFrom(p, t, s))
    decreases |t.slots| - s
  {
    hide Holds, Index1, Index2;
    assert TableOk(p, t) by { HoldsOk(p, t, m); }
    if s == |t.slots| {
    } else {
      EntriesAreCells(p, t, m, s + 1);
      SlotEntriesAt(p, t.slots[s], 0);
      var xs, ys := SlotEntries(p, t.slots[s], 0), EntriesFrom(p, t, s + 1);
      SlotCells(p, t, s, xs);
      AllCells(p, t, s, xs, ys);
      forall i, j | 0 <= i < j < |xs + ys| ensures (xs + ys)[i].key != (xs + ys)[j].key {
        DistinctAt(p, t, m, s, xs, ys, i, j);
      }
    }
  }

  lemma SlotCells(p: Params, t: SlotTable, s: nat, xs: seq<Entry>)
    requires TableOk(p, t) && s < |t.slots| && xs == SlotEntries(p, t.slots[s], 0)
    ensures |xs| <= p.bucket
    ensures forall i | 0 <= i < |xs| ::
            t.slots[s].keys[i] != p.empty && xs[i] == Entry(t.slots[s].keys[i], t.slots[s].values[i])
    ensures forall i: nat | Cell(p, t, s, i) :: i < |xs|
  {
    SlotEntriesAt(p, t.slots[s], 0);
    forall i | 0 <= i < |xs|
      ensures t.slots[s].keys[i] != p.empty && xs[i] == Entry(t.slots[s].keys[i], t.slots[s].values[i])
    {
      assert xs[i] == Entry(t.slots[s].keys[0 + i], t.slots[s].values[0 + i]);
    }
  }

  lemma AllCells(p: Params, t: SlotTable, s: nat, xs: seq<Entry>, ys: seq<Entry>)
    requires TableOk(p, t) && s < |t.slots| && |xs| <= p.bucket
    requires forall i | 0 <= i < |xs| ::
            t.slots[s].keys[i] != p.empty && xs[i] == Entry(t.slots[s].keys[i], t.slots[s].values[i])
    requires forall i: nat | Cell(p, t, s, i) :: i < |xs|
    requires forall j | 0 <= j < |ys| :: FromCell(p, t, s + 1, ys[j])
    requires forall s': nat, i: nat | s + 1 <= s' && Cell(p, t, s', i) ::
            Entry(t.slots[s'].keys[i], t.slots[s'].values[i]) in ys
    ensures forall j | 0 <= j < |xs + ys| :: FromCell(p, t, s, (xs + ys)[j])
    ensures forall s': nat, i: nat | s <= s' && Cell(p, t, s', i) ::
            Entry(t.slots[s'].keys[i], t.slots[s'].values[i]) in xs + ys
  {
    forall j | 0 <= j < |xs + ys| ensures FromCell(p, t, s, (xs + ys)[j]) {
      if j < |xs| {
        assert Cell(p, t, s, j);
      } else {
        assert FromCell(p, t, s + 1, ys[j - |xs|]);
      }
    }
    forall s': nat, i: nat | s <= s' && Cell(p, t, s', i)
      ensures Entry(t.slots[s'].keys[i], t.slots[s'].values[i]) in xs + ys
    {
      if s' == s {
        assert xs[i] == Entry(t.slots[s'].keys[i], t.slots[s'].values[i]);
      }
    }
  }

  lemma DistinctAt(p: Params, t: SlotTable, m: map<int, Word>, s: nat, xs: seq<Entry>, ys: seq<Entry>, i: nat, j: nat)
    requires Represents(p, t, m) && s < |t.slots|
    requires |xs| <= p.bucket && forall i | 0 <= i < |xs| ::
               t.slots[s].keys[i] != p.empty && xs[i] == Entry(t.slots[s].keys[i], t.slots[s].values[i])
    requires DistinctKeys(ys) && forall j | 0 <= j < |ys| :: FromCell(p, t, s + 1, ys[j])
    requires i < j < |xs + ys|
    ensures (xs + ys)[i].key != (xs + ys)[j].key
  {
    if i < |xs| {
      assert Cell(p, t, s, i);
      if j < |xs| {
        assert Cell(p, t, s, j);
      } else {
        assert FromCell(p, t, s + 1, ys[j - |xs|]);
        var s': nat, i': nat :| s + 1 <= s' && Cell(p, t, s', i')
                                && ys[j - |xs|] == Entry(t.slots[s'].keys[i'], t.slots[s'].values[i']);
      }
    }
  }

  lemma EntriesInMap(p: Params, t: SlotTable, m: map<int, Word>, es: seq<Entry>, i: nat)
    requires Holds(p, t, m) && i < |es| && FromCell(p, t, 0, es[i])
    ensures es[i].key in m && m[es[i].key] == es[i].value
  {
    hide Index1, Index2;
    var s: nat, c: nat :| Cell(p, t, s, c) && es[i] == Entry(t.slots[s].keys[c], t.slots[s].values[c]);
    assert CellOk(p, t, m, s, c);
  }

  lemma MapInEntries(p: Params, t: SlotTable, m: map<int, Word>, es: seq<Entry>, k: int)
    requires Holds(p, t, m) && k in m
    requires forall s: nat, i: nat | Cell(p, t, s, i) :: Entry(t.slots[s].keys[i], t.slots[s].values[i]) in es
    ensures exists i :: 0 <= i < |es| && es[i].key == k
  {
    hide Index1, Index2;
    assert StoredIn(p, t, k);
    var s: nat, c: nat :| Cell(p, t, s, c) && t.slots[s].keys[c] == k;
    var i :| 0 <= i < |es| && es[i] == Entry(t.slots[s].keys[c], t.slots[s].values[c]);
  }

  /** The entry list of a table is its map. */
  lemma EntriesAreMap(p: Params, t: SlotTable, m: map<int, Word>)
    requires Represents(p, t, m) && TableOk(p, t)
    ensures DistinctKeys(EntriesFrom(p, t, 0)) && ToMap(EntriesFrom(p, t, 0)) == m
  {
    hide Holds, TableOk, Cell, FromCell, ToMap;
    var es := EntriesFrom(p, t, 0);
    EntriesAreCells(p, t, m, 0);
    ToMapKeys(es);
    forall i | 0 <= i < |es| ensures es[i].key in m && m[es[i].key] == es[i].value {
      EntriesInMap(p, t, m, es, i);
    }
    forall k | k in m ensures k in ToMap(es) {
      MapInEntries(p, t, m, es, k);
    }
    forall k | k in ToMap(es) ensures k in m && ToMap(es)[k] == m[k] {
      var i :| 0 <= i < |es| && es[i].key == k;
    }
  }

  /** Where grow starts: an empty table, and a list that is the old map. */
  lemma GrowStart(p: Params, t: SlotTable, m: map<int, Word>)
    requires Represents(p, t, m)
    ensures TableOk(p, t) && Represents(p, EmptyTable(p, t.lg + 1), map[]) && EmptyTable(p, t.lg + 1).lg == t.lg + 1
    ensures var es := EntriesFrom(p, t, 0);
            DistinctKeys(es) && (forall i | 0 <= i < |es| :: es[i].key < p.empty) && map[] + ToMap(es) == m
  {
    hide Represents, TableOk, EntriesFrom, ToMap, DistinctKeys;
    RepresentsOk(p, t, m);
    EntriesInRange(p, t, 0);
    EntriesAreMap(p, t, m);
    EmptyRepresents(p, t.lg + 1);
    assert map[] + m == m;
  }

  /** grow reinserts the entry list into an empty table. */
  lemma GrowSteps(p: Params, t: SlotTable, depth: nat)
    requires TableOk(p, t)
    ensures TableOk(p, EmptyTable(p, t.lg + 1)) && InRange(p, EntriesFrom(p, t, 0))
    ensures GrowRun(p, t, depth) == ReinsertRun(p, EmptyTable(p, t.lg + 1), EntriesFrom(p, t, 0), depth)
  {
    EntriesInRange(p, t, 0);
  }

  /** Reinserting a list is inserting its first entry and reinserting the rest. */
  lemma ReinsertSteps(p: Params, t: SlotTable, es: seq<Entry>, depth: nat)
    requires TableOk(p, t) && InRange(p, es) && es != []
    ensures InRange(p, es[1..])
    ensures var r := InsertRun(p, t, es[0], depth);
            ReinsertRun(p, t, es, depth) == if r.Some? then ReinsertRun(p, r.value, es[1..], depth) else None
  {
  }

  /** insert adds exactly the new entry, however deeply grow is nested in it. */
  lemma {:induction false} InsertRefines(p: Params, t: SlotTable, m: map<int, Word>, e: Entry, depth: nat)
    requires Represents(p, t, m) && e.key !in m && e.key < p.empty
    ensures var r := InsertRun(p, t, e, depth);
            r.Some? ==> Represents(p, r.value, m[e.key := e.value]) && r.value.lg >= t.lg
    decreases depth, 0, 0
  {
    PlaceRepresents(p, t, m, e);
    if TryPlace(p, t, e.key, e.value).None? && depth > 0 {
      GrowRefines(p, t, m, depth - 1);
      var grown := GrowRun(p, t, depth - 1);
      if grown.Some? {
        InsertRefines(p, grown.value, m, e, depth - 1);
      }
    }
  }

  /** grow ends with exactly the old entries, in a larger table, even when reinsertion grows again. */
  lemma {:induction false} GrowRefines(p: Params, t: SlotTable, m: map<int, Word>, depth: nat)
    requires Represents(p, t, m)
    ensures var r := GrowRun(p, t, depth); r.Some? ==> Represents(p, r.value, m) && r.value.lg > t.lg
    decreases depth, 2, 0
  {
    hide *;
    GrowStart(p, t, m);
    GrowSteps(p, t, depth);
    ReinsertRefines(p, EmptyTable(p, t.lg + 1), map[], EntriesFrom(p, t, 0), depth);
  }

  lemma {:induction false} ReinsertRefines(p: Params, t: SlotTable, m: map<int, Word>, es: seq<Entry>, depth: nat)
    requires Represents(p, t, m) && DistinctKeys(es)
    requires forall i | 0 <= i < |es| :: es[i].key < p.empty && es[i].key !in m
    ensures var r := ReinsertRun(p, t, es, depth);
            r.Some? ==> Represents(p, r.value, m + ToMap(es)) && r.value.lg >= t.lg
    decreases depth, 1, |es|
  {
    hide Holds, TryPlace;
    if es == [] {
      assert m + ToMap(es) == m;
    } else {
      HoldsOk(p, t, m);
      var r := InsertRun(p, t, es[0], depth);
      InsertRefines(p, t, m, es[0], depth);
      if r.Some? {
        FirstEntry(p, m, es);
        ReinsertRefines(p, r.value, m[es[0].key := es[0].value], es[1..], depth);
      }
    }
  }

  /** Adding the first entry and then the others. */
  lemma FirstEntry(p: Params, m: map<int, Word>, es: seq<Entry>)
    requires es != [] && DistinctKeys(es)
    requires forall i | 0 <= i < |es| :: es[i].key < p.empty && es[i].key !in m
    ensures var m' := m[es[0].key := es[0].value];
            && DistinctKeys(es[1..])
            && (forall i | 0 <= i < |es[1..]| :: es[1..][i].key < p.empty && es[1..][i].key !in m')
            && m' + ToMap(es[1..]) == m + ToMap(es)
  {
    assert forall i | 0 <= i < |es[1..]| :: es[1..][i] == es[i + 1];
    ToMapKeys(es[1..]);
  }
}

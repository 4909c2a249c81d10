/** Taking entries out of the two-choice table: erase shifts the later cells of
    the slot down, so used cells stay a prefix; contains relies on that prefix. */
module TwoWayErase {
  import opened Words
  import opened Wrappers
  import opened TwoWayModel
  import opened TwoWayRefine
  import opened TwoWayTermination

  /** A slot without cell i: the later cells move down, the last one becomes empty. */
  function WithoutCell(p: Params, slot: Slot, i: nat): Slot
    requires i < p.bucket == |slot.keys| == |slot.values|
  {
    Slot(slot.keys[..i] + slot.keys[i + 1..] + [p.empty],
        slot.values[..i] + slot.values[i + 1..] + [slot.values[p.bucket - 1]])
  }

  /** The cells before cell i are as they were, each one from there on has what the next one had, and the last key is
      the empty mark, beside the value it had. */
  ghost predicate MovedDown(p: Params, slot: Slot, slot': Slot, i: nat) {
    && i < p.bucket == |slot.keys| == |slot.values| == |slot'.keys| == |slot'.values|
    && (forall j | 0 <= j < i :: slot'.keys[j] == slot.keys[j] && slot'.values[j] == slot.values[j])
    && (forall j | i <= j < p.bucket - 1 :: slot'.keys[j] == slot.keys[j + 1] && slot'.values[j] == slot.values[j + 1])
    && slot'.keys[p.bucket - 1] == p.empty && slot'.values[p.bucket - 1] == slot.values[p.bucket - 1]
  }

  /** That is the only slot without cell i. */
  lemma WithoutCellIs(p: Params, slot: Slot, slot': Slot, i: nat)
    requires i < p.bucket == |slot.keys| == |slot.values|
    ensures slot' == WithoutCell(p, slot, i) <==> MovedDown(p, slot, slot', i)
  {
    var r := WithoutCell(p, slot, i);
    forall j | i <= j < p.bucket - 1 ensures r.keys[j] == slot.keys[j + 1] && r.values[j] == slot.values[j + 1] {
    }
    if MovedDown(p, slot, slot', i) {
      assert slot'.keys == r.keys && slot'.values == r.values;
    }
  }

  /** A slot whose cells from i up to j have each taken the next one's contents. */
  function Shifted(p: Params, slot: Slot, i: nat, j: nat): (r: Slot)
    requires i <= j < p.bucket == |slot.keys| == |slot.values|
    ensures |r.keys| == |r.values| == p.bucket && (j == i ==> r == slot)
  {
    assert slot.keys[..i] + slot.keys[i..] == slot.keys && slot.values[..i] + slot.values[i..] == slot.values;
    Slot(slot.keys[..i] + slot.keys[i + 1..j + 1] + slot.keys[j..],
        slot.values[..i] + slot.values[i + 1..j + 1] + slot.values[j..])
  }

  lemma ShiftedStep(p: Params, slot: Slot, i: nat, j: nat)
    requires i <= j < p.bucket - 1 && p.bucket == |slot.keys| == |slot.values|
    ensures var was := Shifted(p, slot, i, j);
            Shifted(p, slot, i, j + 1) == Slot(was.keys[j := was.keys[j + 1]], was.values[j := was.values[j + 1]])
  {
    var was, now := Shifted(p, slot, i, j), Shifted(p, slot, i, j + 1);
    assert now.keys == was.keys[j := was.keys[j + 1]];
    assert now.values == was.values[j := was.values[j + 1]];
  }

  lemma ShiftedEnd(p: Params, slot: Slot, i: nat)
    requires i < p.bucket == |slot.keys| == |slot.values|
    ensures var was := Shifted(p, slot, i, p.bucket - 1);
            WithoutCell(p, slot, i) == Slot(was.keys[p.bucket - 1 := p.empty], was.values)
  {
    var was := Shifted(p, slot, i, p.bucket - 1);
    assert WithoutCell(p, slot, i).keys == was.keys[p.bucket - 1 := p.empty];
    assert WithoutCell(p, slot, i).values == was.values;
  }

  function RemoveCell(p: Params, t: SlotTable, s: nat, i: nat): SlotTable
    requires s < |t.slots| && i < p.bucket == |t.slots[s].keys| == |t.slots[s].values| && t.size > 0
  {
    SlotTable(t.lg, t.slots[s := WithoutCell(p, t.slots[s], i)], t.size - 1)
  }

  /** The cell that moves to cell i' of slot s' when cell i of slot s is removed. */
  function Origin(s: nat, i: nat, s': nat, i': nat): nat {
    if s' == s && i' >= i then i' + 1 else i'
  }

  lemma RemoveCells(p: Params, t: SlotTable, s: nat, i: nat)
    requires TableOk(p, t) && Cell(p, t, s, i) && t.size > 0
    ensures var t' := RemoveCell(p, t, s, i);
            && TableOk(p, t')
            && (forall s': nat, i': nat {:trigger Cell(p, t', s', i')} | Cell(p, t', s', i') ::
                  && Cell(p, t, s', Origin(s, i, s', i'))
                  && t'.slots[s'].keys[i'] == t.slots[s'].keys[Origin(s, i, s', i')]
                  && t'.slots[s'].values[i'] == t.slots[s'].values[Origin(s, i, s', i')])
            && (forall s': nat, i': nat {:trigger Cell(p, t, s', i')} | Cell(p, t, s', i') && (s' != s || i' < i) ::
                  Cell(p, t', s', i') && t'.slots[s'].keys[i'] == t.slots[s'].keys[i'])
            && (forall i': nat {:trigger Cell(p, t, s, i')} | Cell(p, t, s, i') && i' > i ::
                  Cell(p, t', s, i' - 1) && t'.slots[s].keys[i' - 1] == t.slots[s].keys[i'])
  {
    var slot, slot' := t.slots[s], WithoutCell(p, t.slots[s], i);
    assert forall j | 0 <= j < p.bucket - 1 :: slot'.keys[j] == slot.keys[if j < i then j else j + 1];
    assert forall j | 0 <= j < p.bucket - 1 :: slot'.values[j] == slot.values[if j < i then j else j + 1];
    assert slot'.keys[p.bucket - 1] == p.empty;
    assert SlotOk(p, slot');
    var t' := RemoveCell(p, t, s, i);
    assert t'.slots[s] == slot' && forall s' | 0 <= s' < |t.slots| && s' != s :: t'.slots[s'] == t.slots[s'];
  }

  /** Removing the cell of a key removes exactly that key. */
  lemma RemoveHolds(p: Params, t: SlotTable, m: map<int, Word>, s: nat, i: nat)
    requires Holds(p, t, m) && Cell(p, t, s, i) && t.size > 0
    ensures Holds(p, RemoveCell(p, t, s, i), m - {t.slots[s].keys[i]})
  {
    var k := t.slots[s].keys[i];
    var t', m' := RemoveCell(p, t, s, i), m - {k};
    RemoveCells(p, t, s, i);
    assert t'.lg == t.lg;
    hide Index1, Index2, RemoveCell;
    forall s': nat, i': nat | Cell(p, t', s', i') ensures CellOk(p, t', m', s', i') {
      assert CellOk(p, t, m, s', Origin(s, i, s', i'));
    }
    forall k' | k' in m' ensures StoredIn(p, t', k') {
      RemoveKeeps(p, t, m, s, i, k');
    }
  }

  lemma RemoveKeeps(p: Params, t: SlotTable, m: map<int, Word>, s: nat, i: nat, k: int)
    requires Holds(p, t, m) && Cell(p, t, s, i) && t.size > 0 && k in m && k != t.slots[s].keys[i]
    requires TableOk(p, RemoveCell(p, t, s, i))
    ensures StoredIn(p, RemoveCell(p, t, s, i), k)
  {
    RemoveCells(p, t, s, i);
    var t' := RemoveCell(p, t, s, i);
    hide RemoveCell;
    assert StoredIn(p, t, k);
    var s': nat, i': nat :| Cell(p, t, s', i') && t.slots[s'].keys[i'] == k;
    if s' != s || i' < i {
      assert Cell(p, t', s', i') && t'.slots[s'].keys[i'] == k;
    } else {
      assert Cell(p, t', s, i' - 1) && t'.slots[s].keys[i' - 1] == k;
    }
  }

  lemma RemoveRepresents(p: Params, t: SlotTable, m: map<int, Word>, s: nat, i: nat)
    requires Represents(p, t, m) && TableOk(p, t) && Cell(p, t, s, i)
    ensures t.size > 0 && Represents(p, RemoveCell(p, t, s, i), m - {t.slots[s].keys[i]})
  {
    assert CellOk(p, t, m, s, i);
    MapMinusSize(m, t.slots[s].keys[i]);
    RemoveHolds(p, t, m, s, i);
  }

  /** Cell i is the first to show the key in either of two slots searched side by side. */
  ghost predicate FirstAt(slot1: Slot, slot2: Slot, key: int, i: nat) {
    && i < |slot1.keys| == |slot2.keys| && (slot1.keys[i] == key || slot2.keys[i] == key)
    && forall j | 0 <= j < i :: slot1.keys[j] != key && slot2.keys[j] != key
  }

  /** A stored key shows in one of its two slots, so an unbounded search from cell 0 ends. */
  lemma StoredShows(p: Params, t: SlotTable, m: map<int, Word>, k: int)
    requires Represents(p, t, m) && k in m
    ensures TableOk(p, t) && k < p.empty
    ensures var slot1, slot2 := t.slots[Index1(p, k, t.lg)], t.slots[Index2(p, k, t.lg)];
            exists i: nat {:trigger slot1.keys[i]} {:trigger slot2.keys[i]} | i < p.bucket ::
                slot1.keys[i] == k || slot2.keys[i] == k
  {
    hide Index1, Index2, Represents;
    RepresentsOk(p, t, m);
    StoredCell(p, t, m, k);
  }

  lemma StoredCell(p: Params, t: SlotTable, m: map<int, Word>, k: int)
    requires Represents(p, t, m) && TableOk(p, t) && k in m
    ensures exists s: nat, i: nat ::
            Cell(p, t, s, i) && t.slots[s].keys[i] == k && (s == Index1(p, k, t.lg) || s == Index2(p, k, t.lg))
  {
    hide Index1, Index2;
    assert StoredIn(p, t, k);
    var s: nat, i: nat :| Cell(p, t, s, i) && t.slots[s].keys[i] == k;
    assert CellOk(p, t, m, s, i);
  }

  /** A used cell shows a key with its value. */
  lemma CellValue(p: Params, t: SlotTable, m: map<int, Word>, s: nat, i: nat)
    requires Represents(p, t, m) && TableOk(p, t) && Cell(p, t, s, i)
    ensures var k := t.slots[s].keys[i]; k in m && m[k] == t.slots[s].values[i]
  {
    assert CellOk(p, t, m, s, i);
  }

  /** A search that has passed every used cell of both slots without seeing the key shows it is absent. */
  lemma PassedMeansAbsent(p: Params, t: SlotTable, m: map<int, Word>, k: int, n: nat)
    requires Represents(p, t, m) && TableOk(p, t)
    requires var slot1, slot2 := t.slots[Index1(p, k, t.lg)], t.slots[Index2(p, k, t.lg)];
             && Used(p, slot1) <= n <= p.bucket && Used(p, slot2) <= n
             && forall j | 0 <= j < n :: slot1.keys[j] != k && slot2.keys[j] != k
    ensures k !in m
  {
    if k in m {
      StoredCell(p, t, m, k);
    }
  }

  /** Marking every cell empty leaves the empty map, whatever values lie beside the marks. */
  lemma EmptiedRepresents(p: Params, t: SlotTable)
    requires p.bucket >= 1 && |t.slots| == Pow2(t.lg) && t.size == 0
    requires forall s | 0 <= s < |t.slots| :: |t.slots[s].values| == p.bucket && t.slots[s] == Emptied(p, t.slots[s])
    ensures Represents(p, t, map[])
  {
    forall s | 0 <= s < |t.slots|
      ensures SlotOk(p, t.slots[s]) && forall i | 0 <= i < p.bucket :: t.slots[s].keys[i] == p.empty
    {
      var slot := Emptied(p, t.slots[s]);
      assert t.slots[s].keys == slot.keys;
    }
  }

  /** A table holds at most one map. */
  lemma HoldsUnique(p: Params, t: SlotTable, m: map<int, Word>, m': map<int, Word>)
    requires Holds(p, t, m) && Holds(p, t, m')
    ensures m == m'
  {
    forall k | k in m ensures k in m' && m'[k] == m[k] {
      HoldsInside(p, t, m, m', k);
    }
    forall k | k in m' ensures k in m {
      HoldsInside(p, t, m', m, k);
    }
  }

  lemma HoldsInside(p: Params, t: SlotTable, m: map<int, Word>, m': map<int, Word>, k: int)
    requires Holds(p, t, m) && Holds(p, t, m') && k in m
    ensures k in m' && m'[k] == m[k]
  {
    hide Index1, Index2;
    assert StoredIn(p, t, k);
    var s: nat, i: nat :| Cell(p, t, s, i) && t.slots[s].keys[i] == k;
    assert CellOk(p, t, m, s, i) && CellOk(p, t, m', s, i);
  }

  lemma PutMarkCells(p: Params, t: SlotTable, s: nat, v: Word)
    requires TableOk(p, t) && s < |t.slots| && Used(p, t.slots[s]) < p.bucket
    ensures var t' := PutTable(t, s, Used(p, t.slots[s]), p.empty, v);
            && TableOk(p, t')
            && (forall s': nat, i: nat {:trigger Cell(p, t', s', i)} {:trigger Cell(p, t, s', i)} ::
                  Cell(p, t', s', i) <==> Cell(p, t, s', i))
            && (forall s': nat, i: nat {:trigger Cell(p, t, s', i)} | Cell(p, t, s', i) ::
                  t'.slots[s'].keys[i] == t.slots[s'].keys[i] && t'.slots[s'].values[i] == t.slots[s'].values[i])
  {
    var n := Used(p, t.slots[s]);
    var slot := PutCell(t.slots[s], n, p.empty, v);
    assert t.slots[s].keys[n] == p.empty;
    assert SlotOk(p, slot);
    var t' := PutTable(t, s, n, p.empty, v);
    assert t'.slots[s] == slot && forall s' | 0 <= s' < |t.slots| && s' != s :: t'.slots[s'] == t.slots[s'];
  }

  /** Writing the empty mark itself as a key changes no used cell. */
  lemma PutMarkHolds(p: Params, t: SlotTable, m: map<int, Word>, s: nat, v: Word)
    requires Holds(p, t, m) && s < |t.slots| && Used(p, t.slots[s]) < p.bucket
    ensures Holds(p, PutTable(t, s, Used(p, t.slots[s]), p.empty, v), m)
  {
    var t' := PutTable(t, s, Used(p, t.slots[s]), p.empty, v);
    PutMarkCells(p, t, s, v);
    assert t'.lg == t.lg;
    hide Index1, Index2, PutTable;
    forall s': nat, i: nat | Cell(p, t', s', i) ensures CellOk(p, t', m, s', i) {
      assert Cell(p, t, s', i) && CellOk(p, t, m, s', i);
    }
    forall k | k in m ensures StoredIn(p, t', k) {
      assert StoredIn(p, t, k);
      var s': nat, i: nat :| Cell(p, t, s', i) && t.slots[s'].keys[i] == k;
      assert Cell(p, t', s', i) && t'.slots[s'].keys[i] == k;
    }
  }

  /** Placing it counts an entry that is not there. */
  lemma EmptyMarkPlaced(p: Params, t: SlotTable, m: map<int, Word>, v: Word)
    requires Represents(p, t, m) && TableOk(p, t) && TryPlace(p, t, p.empty, v).Some?
    ensures MarkCounted(p, TryPlace(p, t, p.empty, v).value, m)
  {
    var s1, s2 := Index1(p, p.empty, t.lg), Index2(p, p.empty, t.lg);
    var t' := TryPlace(p, t, p.empty, v).value;
    if Used(p, t.slots[s1]) <= Used(p, t.slots[s2]) {
      PutMarkHolds(p, t, m, s1, v);
    } else {
      PutMarkHolds(p, t, m, s2, v);
    }
    forall m' ensures !Represents(p, t', m') {
      if Represents(p, t', m') {
        HoldsUnique(p, t', m, m');
      }
    }
  }

  /** The table still stores exactly m but counts one entry more, so it represents no map. */
  ghost predicate MarkCounted(p: Params, t: SlotTable, m: map<int, Word>) {
    Holds(p, t, m) && t.size == |m| + 1 && forall m' :: !Represents(p, t, m')
  }

  /** So inserting the empty mark, if it stops, always ends in a table that represents no map, however deeply grow
      is nested. */
  lemma {:induction false} EmptyMarkIsLost(p: Params, t: SlotTable, m: map<int, Word>, v: Word, depth: nat)
    requires Represents(p, t, m) && TableOk(p, t)
    ensures var r := InsertRun(p, t, Entry(p.empty, v), depth); r.Some? ==> MarkCounted(p, r.value, m)
    decreases depth
  {
    hide *;
    var e := Entry(p.empty, v);
    InsertSteps(p, t, e, depth);
    if TryPlace(p, t, e.key, e.value).Some? {
      EmptyMarkPlaced(p, t, m, v);
    } else if InsertRun(p, t, e, depth).Some? {
      GrowRefines(p, t, m, depth - 1);
      EmptyMarkIsLost(p, GrowRun(p, t, depth - 1).value, m, v, depth - 1);
    }
  }
}

/** The two-choice bucketed table as the class that updates its slots in place.
    Every method is proved against the runs of TwoWayModel and the map of
    TwoWayRefine. */
module TwoWayTable {
  import opened Words
  import opened Wrappers
  import opened TwoWayModel
  import opened TwoWayRefine
  import opened TwoWayTermination
  import opened TwoWaySums
  import opened TwoWayErase

  class TwoWay {
    const p: Params
    var data: array<Slot>
    var capacity: nat
    var size_: nat
    ghost var lg: nat

    ghost function State(): SlotTable
      reads this, data
    {
      SlotTable(lg, data[..], size_)
    }

    ghost predicate Valid()
      reads this, data
    {
      capacity == data.Length == Pow2(lg) && TableOk(p, State())
    }

    constructor (p: Params)
      requires p.bucket >= 1
      ensures Valid() && fresh(data) && this.p == p && lg == 3
      ensures State() == EmptyTable(p, 3) && Represents(p, State(), map[])
    {
      this.p := p;
      capacity := 8;
      size_ := 0;
      lg := 3;
      data := new Slot[8](_ => RawSlot(p));
      new;
      FillEmpty(p, data, 8);
      assert Pow2(3) == 8;
      assert data[..] == EmptyTable(p, 3).slots;
      EmptyRepresents(p, 3);
    }

    /** Counts a slot's used cells. */
    static method ScanUsed(p: Params, slot: Slot) returns (n: nat)
      requires SlotOk(p, slot) && p.bucket >= 1
      ensures n == Used(p, slot)
    {
      n := 0;
      while n < p.bucket && slot.keys[n] < p.empty
        invariant n <= p.bucket
        invariant forall j | 0 <= j < n :: slot.keys[j] < p.empty
      {
        n := n + 1;
      }
      UsedIs(p, slot, n);
    }

    /** The two slots of a key, and where they are. */
    method SlotsOf(key: int) returns (index1: nat, index2: nat)
      requires Valid()
      ensures index1 == Index1(p, key, lg) && index2 == Index2(p, key, lg)
      ensures index1 == p.hash(key) % capacity && index2 == p.hash(key) / 0x1_0000_0000 % capacity
      ensures index1 < data.Length && index2 < data.Length && SlotOk(p, data[index1]) && SlotOk(p, data[index2])
    {
      IndexIs(p, key, lg);
      index1 := BitAnd(p.hash(key), capacity - 1);
      index2 := BitAnd(ShiftRight(p.hash(key), 32), capacity - 1);
      assert State().slots[index1] == data[index1] && State().slots[index2] == data[index2];
    }

    /** The entry goes to the emptier of its two slots: of the table as it is, or, if they are both full, of the
        table before that insert has grown to. */
    method Insert(key: int, value: Word, ghost depth: nat) returns (ghost before: SlotTable)
      requires Valid() && key <= p.empty
      requires InsertRun(p, State(), Entry(key, value), depth).Some?
      modifies this, data
      ensures Valid() && (data == old(data) || fresh(data))
      ensures State() == InsertRun(p, old(State()), Entry(key, value), depth).value
      ensures exists s: nat, n: nat :: PlacedAt(p, before, State(), key, value, s, n)
      ensures if !BothFull(p, old(data[..]), key) then before == old(State()) && data == old(data)
              else forall m | Represents(p, old(State()), m) :: Represents(p, before, m) && before.lg > old(lg)
      decreases depth, 0
    {
      hide InsertRun, GrowRun, Index1, Index2, PlacedAt, BothFull, Represents;
      ghost var t := State();
      InsertSteps(p, t, Entry(key, value), depth);
      PlaceOk(p, t, Entry(key, value));
      PlacesInEmptier(p, t, key, value);
      before := t;
      var index1, index2 := SlotsOf(key);
      var n1 := ScanUsed(p, data[index1]);
      var n2 := ScanUsed(p, data[index2]);
      if n1 == p.bucket && n2 == p.bucket {
        GrowKeepsMaps(p, t, depth - 1);
        Grow(depth - 1);
        before := Insert(key, value, depth - 1);
        return;
      }
      if n1 <= n2 {
        data[index1] := PutCell(data[index1], n1, key, value);
      } else {
        data[index2] := PutCell(data[index2], n2, key, value);
      }
      size_ := size_ + 1;
      assert State() == TryPlace(p, t, key, value).value;
    }

    method Grow(ghost depth: nat)
      requires Valid() && GrowRun(p, State(), depth).Some?
      modifies this, data
      ensures Valid() && fresh(data)
      ensures State() == GrowRun(p, old(State()), depth).value
      decreases depth, 1, 1
    {
      hide TableOk, InsertRun, GrowRun, SlotEntries, EmptyTable;
      ghost var t := State();
      GrowSteps(p, t, depth);
      var oldCapacity, oldData := capacity, data;
      Allocate();
      var i := 0;
      while i < oldCapacity
        invariant i <= oldCapacity == |t.slots| && oldData[..] == t.slots
        invariant Valid() && fresh(data) && data != oldData
        invariant InRange(p, EntriesFrom(p, t, i))
        invariant ReinsertRun(p, State(), EntriesFrom(p, t, i), depth) == GrowRun(p, t, depth)
      {
        SlotAt(p, t, i);
        EntriesInRange(p, t, i + 1);
        ReinsertSlot(oldData[i], EntriesFrom(p, t, i + 1), depth);
        i := i + 1;
      }
    }

    /** The new memory of grow: twice the slots, all marked empty. */
    method Allocate()
      requires Valid()
      modifies this
      ensures Valid() && fresh(data) && capacity == 2 * old(capacity)
      ensures State() == EmptyTable(p, old(lg) + 1)
    {
      size_ := 0;
      capacity := capacity * 2;
      lg := lg + 1;
      data := new Slot[capacity](_ => RawSlot(p));
      FillEmpty(p, data, capacity);
      assert data[..] == EmptyTable(p, lg).slots;
      EmptyRepresents(p, lg);
      RepresentsOk(p, State(), map[]);
    }

    /** Reinserts the used cells of one old slot; rest is what the old slots after it hold. */
    method ReinsertSlot(slot: Slot, ghost rest: seq<Entry>, ghost depth: nat)
      requires Valid() && SlotOk(p, slot) && InRange(p, SlotEntries(p, slot, 0) + rest) && InRange(p, rest)
      requires ReinsertRun(p, State(), SlotEntries(p, slot, 0) + rest, depth).Some?
      modifies this, data
      ensures Valid() && (data == old(data) || fresh(data))
      ensures ReinsertRun(p, State(), rest, depth) ==
              old(ReinsertRun(p, State(), SlotEntries(p, slot, 0) + rest, depth))
      decreases depth, 1, 0
    {
      hide TableOk, InsertRun, ReinsertRun;
      var j := 0;
      while j < p.bucket && slot.keys[j] != p.empty
        invariant j <= p.bucket
        invariant Valid() && (data == old(data) || fresh(data))
        invariant InRange(p, SlotEntries(p, slot, j) + rest)
        invariant ReinsertRun(p, State(), SlotEntries(p, slot, j) + rest, depth)
               == old(ReinsertRun(p, State(), SlotEntries(p, slot, 0) + rest, depth))
      {
        ghost var es := SlotEntries(p, slot, j) + rest;
        assert es[0] == Entry(slot.keys[j], slot.values[j]);
        assert es[1..] == SlotEntries(p, slot, j + 1) + rest;
        ReinsertSteps(p, State(), es, depth);
        ghost var _ := Insert(slot.keys[j], slot.values[j], depth);
        j := j + 1;
      }
      assert SlotEntries(p, slot, j) + rest == rest;
    }

    /** The value of a stored key. The search has no bound of its own: that the key is stored stops it. */
    method Find(key: int, steps: nat, ghost m: map<int, Word>) returns (value: Word, steps': nat, ghost i: nat)
      requires Valid() && Represents(p, State(), m) && key in m
      ensures value == m[key]
      ensures var slot1, slot2 := data[p.hash(key) % capacity], data[p.hash(key) / 0x1_0000_0000 % capacity];
              FirstAt(slot1, slot2, key, i) && steps' == steps + 2 * i + if slot1.keys[i] == key then 0 else 1
    {
      hide Represents, Index1, Index2;
      var index1, index2 := SlotsOf(key);
      var slot1, slot2 := data[index1], data[index2];
      StoredShows(p, State(), m, key);
      var n := 0;
      steps' := steps;
      while true
        invariant n <= p.bucket && steps' == steps + 2 * n
        invariant forall j | 0 <= j < n :: slot1.keys[j] != key && slot2.keys[j] != key
        decreases p.bucket - n
      {
        if slot1.keys[n] == key {
          CellValue(p, State(), m, index1, n);
          return slot1.values[n], steps', n;
        }
        steps' := steps' + 1;
        if slot2.keys[n] == key {
          CellValue(p, State(), m, index2, n);
          return slot2.values[n], steps', n;
        }
        steps' := steps' + 1;
        n := n + 1;
      }
    }

    /** Whether a key is stored. The empty mark is reported stored exactly if its two slots are unevenly filled. */
    method Contains(key: int, steps: nat, ghost m: map<int, Word>) returns (found: bool, steps': nat, ghost i: nat)
      requires Valid() && Represents(p, State(), m) && key <= p.empty
      ensures key < p.empty ==> found == (key in m)
      ensures var slot1, slot2 := data[p.hash(key) % capacity], data[p.hash(key) / 0x1_0000_0000 % capacity];
              && SlotOk(p, slot1) && SlotOk(p, slot2)
              && (key == p.empty ==> found == (Used(p, slot1) != Used(p, slot2)))
              && (found ==>
                    FirstAt(slot1, slot2, key, i) && steps' == steps + 2 * i + if slot1.keys[i] == key then 0 else 1)
              && (!found ==>
                    steps' == steps + 2 * if Used(p, slot1) < Used(p, slot2) then Used(p, slot2) else Used(p, slot1))
    {
      hide Represents, Index1, Index2;
      var index1, index2 := SlotsOf(key);
      var slot1, slot2 := data[index1], data[index2];
      ghost var used1, used2 := Used(p, slot1), Used(p, slot2);
      var n := 0;
      steps' := steps;
      while n < p.bucket && (slot1.keys[n] != p.empty || slot2.keys[n] != p.empty)
        invariant n <= p.bucket && steps' == steps + 2 * n && (n <= used1 || n <= used2)
        invariant forall j | 0 <= j < n :: slot1.keys[j] != key && slot2.keys[j] != key
      {
        if slot1.keys[n] == key {
          if key < p.empty { CellValue(p, State(), m, index1, n); }
          return true, steps', n;
        }
        steps' := steps' + 1;
        if slot2.keys[n] == key {
          if key < p.empty { CellValue(p, State(), m, index2, n); }
          return true, steps', n;
        }
        steps' := steps' + 1;
        n := n + 1;
      }
      assert used1 < n ==> slot1.keys[used1] == p.empty;
      assert used2 < n ==> slot2.keys[used2] == p.empty;
      PassedMeansAbsent(p, State(), m, key, n);
      return false, steps', n;
    }

    /** Removes a stored key: the later cells of its slot move down by one. */
    method Erase(key: int, ghost m: map<int, Word>)
      requires Valid() && Represents(p, State(), m) && key in m
      modifies this`size_, data
      ensures Valid() && Represents(p, State(), m - {key})
      ensures exists s: nat, i: nat :: Cell(p, old(State()), s, i) && old(data[s].keys[i]) == key
                && old(size_) > 0 && State() == RemoveCell(p, old(State()), s, i)
                && MovedDown(p, old(data[s]), data[s], i)
    {
      hide Represents, Index1, Index2;
      var index1, index2 := SlotsOf(key);
      StoredShows(p, State(), m, key);
      var i := 0;
      while true
        invariant i <= p.bucket
        invariant forall j | 0 <= j < i :: data[index1].keys[j] != key && data[index2].keys[j] != key
        invariant State() == old(State())
        decreases p.bucket - i
      {
        if data[index1].keys[i] == key {
          RemoveAt(index1, i, m);
          return;
        }
        if data[index2].keys[i] == key {
          RemoveAt(index2, i, m);
          return;
        }
        i := i + 1;
      }
    }

    /** Shifts the cells after cell i of slot s down by one and marks the last one empty. */
    method RemoveAt(s: nat, i: nat, ghost m: map<int, Word>)
      requires Valid() && Represents(p, State(), m) && Cell(p, State(), s, i)
      modifies this`size_, data
      ensures old(size_) > 0 && State() == RemoveCell(p, old(State()), s, i)
      ensures MovedDown(p, old(data[s]), data[s], i)
      ensures Valid() && Represents(p, State(), m - {old(data[s].keys[i])})
    {
      hide Represents, WithoutCell;
      ghost var t := State();
      RemoveRepresents(p, t, m, s, i);
      RepresentsOk(p, RemoveCell(p, t, s, i), m - {t.slots[s].keys[i]});
      ShiftDown(p, data, s, i);
      size_ := size_ - 1;
    }

    static method ShiftDown(p: Params, slots: array<Slot>, s: nat, i: nat)
      requires s < slots.Length && i < p.bucket == |slots[s].keys| == |slots[s].values|
      modifies slots
      ensures slots[..] == old(slots[..])[s := WithoutCell(p, old(slots[s]), i)]
      ensures MovedDown(p, old(slots[s]), slots[s], i)
    {
      hide WithoutCell, Shifted;
      ghost var slot := slots[s];
      var j := i;
      while j < p.bucket - 1
        invariant i <= j <= p.bucket - 1
        invariant slots[s] == Shifted(p, slot, i, j)
        invariant forall s' | 0 <= s' < slots.Length && s' != s :: slots[s'] == old(slots[s'])
      {
        ShiftedStep(p, slot, i, j);
        slots[s] := Slot(slots[s].keys[j := slots[s].keys[j + 1]], slots[s].values[j := slots[s].values[j + 1]]);
        j := j + 1;
      }
      ShiftedEnd(p, slot, i);
      slots[s] := Slot(slots[s].keys[p.bucket - 1 := p.empty], slots[s].values);
      WithoutCellIs(p, slot, slots[s], i);
    }

    method Clear()
      requires Valid()
      modifies this`size_, data
      ensures Valid() && Represents(p, State(), map[])
      ensures forall s | 0 <= s < data.Length :: data[s] == Emptied(p, old(data[s]))
    {
      size_ := 0;
      FillEmpty(p, data, capacity);
      EmptiedRepresents(p, State());
      RepresentsOk(p, State(), map[]);
    }

    /** The sum, modulo 2^64, of the values of the map. */
    method SumAllValues(ghost m: map<int, Word>) returns (sum: Word)
      requires Valid() && Represents(p, State(), m)
      ensures sum == MapSum(m) % WORD
    {
      hide Represents, MapSum, TableOk, SlotEntries;
      ghost var t := State();
      TableSum(p, t, m);
      sum := 0;
      var i := 0;
      while i < capacity
        invariant i <= capacity
        invariant (sum + EntrySum(EntriesFrom(p, t, i))) % WORD == MapSum(m) % WORD
      {
        SlotAt(p, t, i);
        sum := SumSlot(p, data[i], sum, EntriesFrom(p, t, i + 1));
        i := i + 1;
      }
    }

    static method SumSlot(p: Params, slot: Slot, start: Word, ghost rest: seq<Entry>) returns (sum: Word)
      requires SlotOk(p, slot)
      ensures (sum + EntrySum(rest)) % WORD == (start + EntrySum(SlotEntries(p, slot, 0) + rest)) % WORD
    {
      sum := start;
      var j := 0;
      while j < p.bucket && slot.keys[j] != p.empty
        invariant j <= p.bucket
        invariant (sum + EntrySum(SlotEntries(p, slot, j) + rest)) % WORD
                  == (start + EntrySum(SlotEntries(p, slot, 0) + rest)) % WORD
      {
        ghost var es := SlotEntries(p, slot, j) + rest;
        assert es[0].value == slot.values[j] && es[1..] == SlotEntries(p, slot, j + 1) + rest;
        ModAddMod(sum + slot.values[j], EntrySum(es[1..]), WORD);
        sum := (sum + slot.values[j]) % WORD;
        j := j + 1;
      }
      assert SlotEntries(p, slot, j) + rest == rest;
    }

    /** Marks every cell empty; the values stay as they are. */
    static method FillEmpty(p: Params, slots: array<Slot>, count: nat)
      requires count <= slots.Length && forall s | 0 <= s < count :: |slots[s].keys| == p.bucket
      modifies slots
      ensures forall s | 0 <= s < slots.Length ::
              slots[s] == if s < count then Emptied(p, old(slots[s])) else old(slots[s])
    {
      var idx := 0;
      while idx < count
        invariant idx <= count
        invariant forall s | 0 <= s < slots.Length ::
                slots[s] == if s < idx then Emptied(p, old(slots[s])) else old(slots[s])
      {
        slots[idx] := Emptied(p, slots[idx]);
        idx := idx + 1;
      }
    }
  }

  /** grow keeps whatever map the table represents. */
  lemma GrowKeepsMaps(p: Params, t: SlotTable, depth: nat)
    requires TableOk(p, t) && GrowRun(p, t, depth).Some?
    ensures var g := GrowRun(p, t, depth).value;
            forall m | Represents(p, t, m) :: Represents(p, g, m) && g.lg > t.lg
  {
    forall m | Represents(p, t, m)
      ensures var g := GrowRun(p, t, depth).value; Represents(p, g, m) && g.lg > t.lg
    {
      GrowRefines(p, t, m, depth);
    }
  }

  datatype Op = InsertOp(key: int, value: Word) | EraseOp(key: int) | ClearOp

  ghost function ApplyOp(m: map<int, Word>, op: Op): map<int, Word> {
    match op
    case InsertOp(k, v) => m[k := v]
    case EraseOp(k) => m - {k}
    case ClearOp => map[]
  }

  ghost function ApplyAll(m: map<int, Word>, ops: seq<Op>): map<int, Word>
    decreases |ops|
  {
    if ops == [] then m else ApplyAll(ApplyOp(m, ops[0]), ops[1..])
  }

  /** What the class asks of its callers; for an insertion, also that the keys fit at the given level. */
  ghost predicate Allowed(p: Params, m: map<int, Word>, op: Op, level: nat) {
    match op
    case InsertOp(k, v) => k !in m && k < p.empty && Fits(p, m.Keys + {k}, level)
    case EraseOp(k) => k in m
    case ClearOp => true
  }

  ghost predicate AllAllowed(p: Params, m: map<int, Word>, ops: seq<Op>, level: nat)
    decreases |ops|
  {
    ops == [] || (Allowed(p, m, ops[0], level) && AllAllowed(p, ApplyOp(m, ops[0]), ops[1..], level))
  }

  /** A run of allowed operations ends, and the table represents the map after the same operations. */
  method Run(t: TwoWay, ops: seq<Op>, ghost m: map<int, Word>, ghost level: nat)
    requires t.Valid() && Represents(t.p, t.State(), m)
    requires t.lg <= level && AllAllowed(t.p, m, ops, level)
    modifies t, t.data
    ensures t.Valid() && Represents(t.p, t.State(), ApplyAll(m, ops)) && t.lg <= level
  {
    hide TableOk, Represents, Allowed, ApplyOp;
    ghost var m' := m;
    var i := 0;
    while i < |ops|
      invariant i <= |ops|
      invariant t.Valid() && (t.data == old(t.data) || fresh(t.data))
      invariant Represents(t.p, t.State(), m') && t.lg <= level
      invariant AllAllowed(t.p, m', ops[i..], level)
      invariant ApplyAll(m', ops[i..]) == ApplyAll(m, ops)
    {
      assert ops[i..][1..] == ops[i + 1..];
      RunStep(t, ops[i], m', level);
      m' := ApplyOp(m', ops[i]);
      i := i + 1;
    }
  }

  method RunStep(t: TwoWay, op: Op, ghost m: map<int, Word>, ghost level: nat)
    requires t.Valid() && Represents(t.p, t.State(), m)
    requires t.lg <= level && Allowed(t.p, m, op, level)
    modifies t, t.data
    ensures t.Valid() && (t.data == old(t.data) || fresh(t.data))
    ensures Represents(t.p, t.State(), ApplyOp(m, op)) && t.lg <= level
  {
    hide TableOk, Represents, InsertRun, Fits;
    match op {
      case InsertOp(k, v) =>
        InsertStops(t.p, t.State(), m, Entry(k, v), level, level - t.lg);
        InsertRefines(t.p, t.State(), m, Entry(k, v), level - t.lg);
        ghost var _ := t.Insert(k, v, level - t.lg);
      case EraseOp(k) => t.Erase(k, m);
      case ClearOp => t.Clear();
    }
  }
}

/** Iteration over the open-addressing table. An iterator is the address pc of a
    metadata byte, 16 bytes to a group, and the index p of the element, 15 to a
    group, absent at the end. The two increment algorithms, for regular and for
    interleaved groups, both go to the next occupied slot. */
module TableIterator {
  import opened Words
  import opened Wrappers
  import opened SizePolicy
  import opened Group
  import opened TableInvariant
  import opened TableCore
  import Table

  /** Slot f of the table, counting 15 to a group, is not available. */
  predicate Taken(gs: seq<Group15>, f: nat) {
    f / 15 < |gs| && gs[f / 15].slots[f % 15] != AVAILABLE
  }

  /** The slot of the sentinel. */
  function LastSlot(gs: seq<Group15>): int { 15 * |gs| - 1 }

  /** The metadata of a table: only the last slot carries the sentinel mark. */
  ghost predicate MarksOk(gs: seq<Group15>) {
    |gs| >= 1 && forall f: nat {:trigger Taken(gs, f)} | f <= LastSlot(gs) ::
      gs[f / 15].slots[f % 15] == SENTINEL <==> f == LastSlot(gs)
  }

  /** No slot strictly between f and f' is taken. */
  ghost predicate NoneUpTo(gs: seq<Group15>, f: int, f': int) {
    forall x: nat {:trigger Taken(gs, x)} | f < x < f' :: !Taken(gs, x)
  }

  /** The mask shows the taken slots of group g that come after slot f. */
  ghost predicate MaskFrom(gs: seq<Group15>, f: int, g: nat, mask: Mask)
    requires g < |gs|
  {
    forall n | 0 <= n < 15 :: mask[n] <==> gs[g].slots[n] != AVAILABLE && 15 * g + n > f
  }

  /** f' is the first taken slot after f. */
  ghost predicate IsNext(gs: seq<Group15>, f: int, f': nat) {
    f < f' && Taken(gs, f') && NoneUpTo(gs, f, f')
  }

  ghost function Next(gs: seq<Group15>, f: int): (f': nat)
    requires MarksOk(gs) && -1 <= f < LastSlot(gs)
    ensures IsNext(gs, f, f') && f' <= LastSlot(gs)
    decreases LastSlot(gs) - f
  {
    if Taken(gs, f + 1) then f + 1 else assert f + 1 != LastSlot(gs); Next(gs, f + 1)
  }

  lemma NextIs(gs: seq<Group15>, f: int, f': nat)
    requires MarksOk(gs) && -1 <= f < LastSlot(gs) && IsNext(gs, f, f')
    ensures Next(gs, f) == f' <= LastSlot(gs)
  {
    var next := Next(gs, f);
    assert !(f' < next) && !(next < f');
  }

  lemma TakenAt(gs: seq<Group15>, g: nat, n: nat)
    requires g < |gs| && n < 15
    ensures (15 * g + n) / 15 == g && (15 * g + n) % 15 == n
    ensures Taken(gs, 15 * g + n) <==> gs[g].slots[n] != AVAILABLE
  {
  }

  lemma AddressAt(g: nat, n: nat)
    requires n < 15
    ensures (16 * g + n) / 16 == g && (16 * g + n) % 16 == n
    ensures (15 * g + n) / 15 == g && (15 * g + n) % 15 == n
  {
  }

  lemma NoneYet(gs: seq<Group15>, f: int, f': int)
    requires f' <= f + 1
    ensures NoneUpTo(gs, f, f')
  {
  }

  lemma NoneNext(gs: seq<Group15>, f: int, g: nat, n: nat)
    requires g < |gs| && n < 15 && gs[g].slots[n] == AVAILABLE && NoneUpTo(gs, f, 15 * g + n)
    ensures NoneUpTo(gs, f, 15 * g + n + 1)
  {
    TakenAt(gs, g, n);
  }

  /** A taken slot right after none is the next one; its byte is the sentinel mark exactly at the last slot. */
  lemma FoundAt(gs: seq<Group15>, f: int, g: nat, n: nat)
    requires MarksOk(gs) && -1 <= f < LastSlot(gs) && f < 15 * g + n
    requires g < |gs| && n < 15 && gs[g].slots[n] != AVAILABLE && NoneUpTo(gs, f, 15 * g + n)
    ensures Next(gs, f) == 15 * g + n && (gs[g].slots[n] == SENTINEL <==> 15 * g + n == LastSlot(gs))
  {
    TakenAt(gs, g, n);
    NextIs(gs, f, 15 * g + n);
    SentinelIsLast(gs, g, n);
  }

  /** The sentinel mark is a property of the slot's number. */
  lemma SentinelIsLast(gs: seq<Group15>, g: nat, n: nat)
    requires MarksOk(gs) && g < |gs| && n < 15
    ensures gs[g].slots[n] == SENTINEL <==> 15 * g + n == LastSlot(gs)
  {
    TakenAt(gs, g, n);
    assert Taken(gs, 15 * g + n) || !Taken(gs, 15 * g + n);
  }

  /** The lowest taken slot of a group. */
  lemma LowestTaken(gs: seq<Group15>, f: int, g: nat, mask: Mask)
    requires g < |gs| && NonZero(mask) && MaskFrom(gs, f, g, mask)
    requires NoneUpTo(gs, f, 15 * g)
    ensures IsNext(gs, f, 15 * g + CountrZero(mask))
  {
    var n := CountrZero(mask);
    TakenAt(gs, g, n);
    forall x: nat | f < x < 15 * g + n ensures !Taken(gs, x) {
      if x >= 15 * g {
        TakenAt(gs, g, x - 15 * g);
      }
    }
  }

  /** A nonempty mask of a group shows the next slot, and the sentinel test tells whether it is the last. */
  lemma FoundIn(gs: seq<Group15>, f: int, g: nat, mask: Mask)
    requires MarksOk(gs) && -1 <= f < LastSlot(gs) && g < |gs| && NonZero(mask) && MaskFrom(gs, f, g, mask)
    requires NoneUpTo(gs, f, 15 * g)
    ensures var n := CountrZero(mask);
            && Next(gs, f) == 15 * g + n && (15 * g + n) / 15 == g && (15 * g + n) % 15 == n
            && (IsSentinel(gs[g], n) <==> 15 * g + n == LastSlot(gs))
  {
    var n := CountrZero(mask);
    LowestTaken(gs, f, g, mask);
    NextIs(gs, f, 15 * g + n);
    SentinelIsLast(gs, g, n);
    TakenAt(gs, g, n);
  }

  lemma NoneTaken(gs: seq<Group15>, f: int, g: nat, mask: Mask)
    requires MarksOk(gs) && g < |gs| && !NonZero(mask) && f < LastSlot(gs)
    requires MaskFrom(gs, f, g, mask)
    requires NoneUpTo(gs, f, 15 * g)
    ensures g + 1 < |gs| && NoneUpTo(gs, f, 15 * (g + 1))
  {
    forall x: nat | f < x < 15 * (g + 1) ensures !Taken(gs, x) {
      if x >= 15 * g {
        TakenAt(gs, g, x - 15 * g);
        assert !mask[x - 15 * g];
      }
    }
    SentinelIsLast(gs, |gs| - 1, 14);
    TakenAt(gs, |gs| - 1, 14);
  }

  /** A mask without its bits up to n0: shifted right and left again by n0 + 1. */
  function DropThrough(m: Mask, n0: nat): (r: Mask)
    ensures forall n | 0 <= n < 15 :: r[n] <==> m[n] && n > n0
  {
    seq(15, n requires 0 <= n < 15 => m[n] && n > n0)
  }

  lemma MaskAll(gs: seq<Group15>, f: int, g: nat)
    requires g < |gs| && f < 15 * g
    ensures MaskFrom(gs, f, g, MatchOccupied(gs[g]))
  {
  }

  lemma MaskAfter(gs: seq<Group15>, g: nat, n0: nat)
    requires g < |gs| && n0 < 15
    ensures MaskFrom(gs, 15 * g + n0, g, DropThrough(MatchOccupied(gs[g]), n0))
  {
  }

  class TableIterator {
    var pc: nat
    var p: Option<nat>

    /** The iterator is at slot f. */
    ghost predicate At(f: int)
      reads this
    {
      f >= 0 && p == Some(f as nat) && pc == 16 * (f / 15) + f % 15
    }

    /** At slot f, or at the end if f is the sentinel's. */
    ghost predicate Arrived(gs: seq<Group15>, f: int)
      reads this
    {
      if f == LastSlot(gs) then p == None else At(f)
    }

    constructor (pc: nat, p: Option<nat>)
      ensures this.pc == pc && this.p == p
    {
      this.pc := pc;
      this.p := p;
    }

    method IncrementRegular(gs: seq<Group15>)
      requires MarksOk(gs) && p.Some? && p.value < LastSlot(gs) && At(p.value)
      modifies this
      ensures Arrived(gs, Next(gs, old(p.value)))
    {
      hide MarksOk, NoneUpTo, Next, Taken, NonZero, MaskFrom, MatchOccupied, CountrZero, IsSentinel;
      ghost var f := p.value;
      var g, done := ScanGroup(gs);
      if done { return; }
      while true
        invariant g < |gs| && pc == 16 * g && p == Some(15 * g)
        invariant NoneUpTo(gs, f, 15 * g)
        invariant f < 15 * g
        decreases |gs| - g
      {
        AddressAt(g, 0);
        var mask := MatchOccupied(gs[pc / 16]);
        MaskAll(gs, f, g);
        if NonZero(mask) {
          var n := CountrZero(mask);
          FoundIn(gs, f, g, mask);
          if IsSentinel(gs[pc / 16], n) {
            p := None;
          } else {
            pc := pc + n;
            p := Some(p.value + n);
          }
          return;
        }
        NoneTaken(gs, f, g, mask);
        pc := pc + 16;
        p := Some(p.value + N);
        g := g + 1;
      }
    }

    /** The first loop of the regular increment: byte by byte to the end of the group. */
    method ScanGroup(gs: seq<Group15>) returns (ghost g: nat, done: bool)
      requires MarksOk(gs) && p.Some? && p.value < LastSlot(gs) && At(p.value)
      modifies this
      ensures done ==> Arrived(gs, Next(gs, old(p.value)))
      ensures !done ==> g < |gs| && pc == 16 * g && p == Some(15 * g) && old(p.value) < 15 * g
      ensures !done ==> NoneUpTo(gs, old(p.value), 15 * g)
    {
      hide MarksOk, NoneUpTo, Next, Taken;
      ghost var f := p.value;
      ghost var n := f % 15;
      g := f / 15;
      NoneYet(gs, f, f + 1);
      while true
        invariant g < |gs| && n < 15 && pc == 16 * g + n && p == Some(15 * g + n) && f <= 15 * g + n < LastSlot(gs)
        invariant NoneUpTo(gs, f, 15 * g + n + 1)
        decreases 15 - n
      {
        AddressAt(g, n);
        p := Some(p.value + 1);
        if pc % 16 == N - 1 {
          pc := pc + (16 - (N - 1));
          return g + 1, false;
        }
        pc := pc + 1;
        n := n + 1;
        AddressAt(g, n);
        if gs[pc / 16].slots[pc % 16] == AVAILABLE {
          NoneNext(gs, f, g, n);
          SentinelIsLast(gs, g, n);
          continue;
        }
        FoundAt(gs, f, g, n);
        if gs[pc / 16].slots[pc % 16] == SENTINEL { p := None; }
        return g, true;
      }
    }

    method IncrementInterleaved(gs: seq<Group15>)
      requires MarksOk(gs) && p.Some? && p.value < LastSlot(gs) && At(p.value)
      modifies this
      ensures Arrived(gs, Next(gs, old(p.value)))
    {
      hide MarksOk, NoneUpTo, Next, Taken, NonZero, MaskFrom, MatchOccupied, CountrZero, IsSentinel, DropThrough;
      ghost var f := p.value;
      ghost var g := f / 15;
      AddressAt(g, f % 15);
      NoneYet(gs, f, 15 * g);
      MaskAfter(gs, g, f % 15);
      var n0 := pc % 16;
      pc := pc - n0;
      var mask := DropThrough(MatchOccupied(gs[pc / 16]), n0);
      if !NonZero(mask) {
        while true
          invariant g < |gs| && pc == 16 * g && p == Some(15 * g + n0) && n0 < 15
          invariant !NonZero(mask) && MaskFrom(gs, f, g, mask)
          invariant NoneUpTo(gs, f, 15 * g)
          invariant f <= 15 * g + n0
          decreases |gs| - g
        {
          NoneTaken(gs, f, g, mask);
          pc := pc + 16;
          p := Some(p.value + N);
          g := g + 1;
          AddressAt(g, 0);
          MaskAll(gs, f, g);
          mask := MatchOccupied(gs[pc / 16]);
          if NonZero(mask) { break; }
        }
      }
      AddressAt(g, 0);
      var n := CountrZero(mask);
      FoundIn(gs, f, g, mask);
      if IsSentinel(gs[pc / 16], n) {
        p := None;
      } else {
        pc := pc + n;
        p := Some(p.value - n0 + n);
      }
    }

    /** Either increment: which one runs depends only on the group's layout. */
    method Increment(gs: seq<Group15>, regular: bool)
      requires MarksOk(gs) && p.Some? && p.value < LastSlot(gs) && At(p.value)
      modifies this
      ensures Arrived(gs, Next(gs, old(p.value)))
    {
      if regular {
        IncrementRegular(gs);
      } else {
        IncrementInterleaved(gs);
      }
    }
  }

  lemma NextFromStart(gs: seq<Group15>)
    requires MarksOk(gs)
    ensures LastSlot(gs) >= 14 && Next(gs, -1) == if gs[0].slots[0] != AVAILABLE then 0 else Next(gs, 0)
  {
    TakenAt(gs, 0, 0);
    if gs[0].slots[0] != AVAILABLE {
      NextIs(gs, -1, 0);
    } else {
      NextIs(gs, -1, Next(gs, 0));
    }
  }

  /** begin(): the first taken slot, or the end; also the end for a table without elements. */
  method Begin(gs: seq<Group15>, hasElements: bool, regular: bool) returns (it: TableIterator)
    requires hasElements ==> MarksOk(gs)
    ensures fresh(it)
    ensures if hasElements then it.Arrived(gs, Next(gs, -1)) else it.p == None
  {
    if hasElements {
      NextFromStart(gs);
    }
    it := new TableIterator(0, if hasElements then Some(0) else None);
    if hasElements && !MatchOccupied(gs[0])[0] {
      it.Increment(gs, regular);
    }
  }

  ghost predicate Increasing(fs: seq<nat>) {
    forall i, j | 0 <= i < j < |fs| :: fs[i] < fs[j]
  }

  /** The slots visited: exactly the taken ones up to f, in order, each once. */
  ghost predicate VisitedTo(gs: seq<Group15>, fs: seq<nat>, f: int) {
    && Increasing(fs)
    && (forall i | 0 <= i < |fs| :: fs[i] <= f && fs[i] < LastSlot(gs) && Taken(gs, fs[i]))
    && (forall x: nat {:trigger Taken(gs, x)} | x <= f && x < LastSlot(gs) && Taken(gs, x) :: x in fs)
  }

  lemma VisitNext(gs: seq<Group15>, fs: seq<nat>, f: int)
    requires MarksOk(gs) && -1 <= f < LastSlot(gs) && VisitedTo(gs, fs, f)
    ensures var f' := Next(gs, f);
            if f' == LastSlot(gs) then VisitedTo(gs, fs, f') else VisitedTo(gs, fs + [f'], f')
  {
    var f' := Next(gs, f);
    forall x: nat | x <= f' && x < LastSlot(gs) && Taken(gs, x)
      ensures x in fs + [f'] && (f' == LastSlot(gs) ==> x in fs)
    {
      if x > f {
        assert !(f < x < f');
      }
    }
  }

  /** Iterating from begin by increment visits every occupied slot exactly once, in slot order, and then is at the end;
      a table without elements is at the end at once. */
  method Traverse<K, V>(gs: seq<Group15>, es: seq<seq<Element<K, V>>>, regular: bool)
    returns (xs: seq<Element<K, V>>, fs: seq<nat>)
    requires es == [] || (MarksOk(gs) && RowsOk(gs, es))
    ensures if es == [] then fs == [] else VisitedTo(gs, fs, LastSlot(gs))
    ensures |xs| == |fs| && forall i | 0 <= i < |fs| :: ElementAt(es, fs[i]) && xs[i] == es[fs[i] / 15][fs[i] % 15]
  {
    hide MarksOk, Next, Taken, VisitedTo, Increasing;
    var it := Begin(gs, |es| > 0, regular);
    ghost var f := -1;
    xs, fs := [], [];
    NothingVisited(gs);
    if es != [] {
      NextFromStart(gs);
    }
    while it.p.Some?
      invariant fresh(it)
      invariant if es == [] then it.p == None && fs == []
                else -1 <= f < LastSlot(gs) && VisitedTo(gs, fs, f) && it.Arrived(gs, Next(gs, f))
      invariant |xs| == |fs| && forall i | 0 <= i < |fs| :: ElementAt(es, fs[i]) && xs[i] == es[fs[i] / 15][fs[i] % 15]
      decreases LastSlot(gs) - f
    {
      VisitNext(gs, fs, f);
      f := Next(gs, f);
      xs, fs := xs + [es[it.p.value / 15][it.p.value % 15]], fs + [it.p.value];
      it.Increment(gs, regular);
    }
    if es != [] {
      VisitNext(gs, fs, f);
    }
  }

  /** The elements of a table, by begin and increment: its entries, each key once, also for a table without elements. */
  method TraverseTable<K, V>(gs: seq<Group15>, es: seq<seq<Element<K, V>>>, si: nat, regular: bool,
                             ghost hash: K -> Word, ghost m: map<K, V>)
    returns (xs: seq<Element<K, V>>)
    requires Searchable(gs, es, si, hash, m)
    ensures forall i | 0 <= i < |xs| :: IsEntry(m, xs[i])
    ensures forall i, j | 0 <= i < j < |xs| :: xs[i].key != xs[j].key
    ensures forall k | k in m :: exists i :: 0 <= i < |xs| && xs[i].key == k
  {
    hide TableOk, LayoutOk, MarksOk, VisitedTo, ElementsOk, Holds;
    SearchableMarksOk(gs, es, si, hash, m);
    var fs;
    xs, fs := Traverse(gs, es, regular);
    if es != [] {
      VisitsAreEntries(gs, es, si, hash, m, xs, fs);
    }
  }

  /** Slot f has an element cell. */
  predicate ElementAt<K, V>(es: seq<seq<Element<K, V>>>, f: nat) {
    f / 15 < |es| && |es[f / 15]| == N
  }

  lemma SearchableMarksOk<K, V>(gs: seq<Group15>, es: seq<seq<Element<K, V>>>, si: int, hash: K -> Word, m: map<K, V>)
    requires Searchable(gs, es, si, hash, m)
    ensures if es == [] then m == map[] else TableOk(gs, es, si, hash, m) && MarksOk(gs) && RowsOk(gs, es)
  {
    if es != [] {
      TableMarksOk(gs, si);
    }
  }

  /** Iterating over a table yields its entries, each key once, as many as its size. */
  method Elements<K(==, 0), V(0)>(t: Table.Table<K, V>, regular: bool) returns (xs: seq<Element<K, V>>)
    requires t.Valid()
    ensures forall i | 0 <= i < |xs| :: IsEntry(t.Contents, xs[i])
    ensures forall i, j | 0 <= i < j < |xs| :: xs[i].key != xs[j].key
    ensures forall k | k in t.Contents :: exists i :: 0 <= i < |xs| && xs[i].key == k
    ensures |xs| == t.size
  {
    hide Searchable, CellCount;
    xs := TraverseTable(t.arrays.groups[..], t.arrays.elements[..], t.arrays.groupsSizeIndex, regular, t.hash,
        t.Contents);
    EntryCount(xs, t.Contents);
  }

  lemma {:induction false} EntryCount<K, V>(xs: seq<Element<K, V>>, m: map<K, V>)
    requires forall i | 0 <= i < |xs| :: IsEntry(m, xs[i])
    requires forall i, j | 0 <= i < j < |xs| :: xs[i].key != xs[j].key
    requires forall k | k in m :: exists i :: 0 <= i < |xs| && xs[i].key == k
    ensures |xs| == |m|
  {
    if xs == [] {
      assert m == map[];
    } else {
      var rest, k := xs[..|xs| - 1], xs[|xs| - 1].key;
      MapRemoveSize(m, k);
      forall k' | k' in m - {k} ensures exists i :: 0 <= i < |rest| && rest[i].key == k' {
        var i :| 0 <= i < |xs| && xs[i].key == k';
        assert rest[i].key == k';
      }
      EntryCount(rest, m - {k});
    }
  }

  lemma NothingVisited(gs: seq<Group15>)
    ensures VisitedTo(gs, [], -1)
  {
  }

  /** Every table keeps its marks as iteration needs them. */
  lemma TableMarksOk(gs: seq<Group15>, si: int)
    requires LayoutOk(gs, si)
    ensures MarksOk(gs)
  {
    forall f: nat | f <= LastSlot(gs) ensures gs[f / 15].slots[f % 15] == SENTINEL <==> f == LastSlot(gs) {
      assert IsCell(gs, f / 15, f % 15) <==> f != LastSlot(gs);
    }
  }

  /** The elements visited are the entries of the table's map, each key once. */
  lemma VisitsAreEntries<K, V>(gs: seq<Group15>, es: seq<seq<Element<K, V>>>, si: nat, hash: K -> Word, m: map<K, V>,
                               xs: seq<Element<K, V>>, fs: seq<nat>)
    requires TableOk(gs, es, si, hash, m) && VisitedTo(gs, fs, LastSlot(gs))
    requires |xs| == |fs| && forall i | 0 <= i < |fs| :: ElementAt(es, fs[i]) && xs[i] == es[fs[i] / 15][fs[i] % 15]
    ensures forall i | 0 <= i < |xs| :: IsEntry(m, xs[i])
    ensures forall i, j | 0 <= i < j < |xs| :: xs[i].key != xs[j].key
    ensures forall k | k in m :: exists i :: 0 <= i < |xs| && xs[i].key == k
  {
    hide ReducedHash, Position, Placed;
    forall i | 0 <= i < |fs| ensures Occ(gs, fs[i] / 15, fs[i] % 15) {
      assert Taken(gs, fs[i]);
    }
    forall k | k in m ensures exists i :: 0 <= i < |xs| && xs[i].key == k {
      var i := VisitOf(gs, es, si, hash, m, fs, k);
      assert xs[i].key == k;
    }
  }

  /** The visit of a stored key. */
  lemma VisitOf<K, V>(gs: seq<Group15>, es: seq<seq<Element<K, V>>>, si: nat, hash: K -> Word, m: map<K, V>,
                      fs: seq<nat>, k: K)
    returns (i: nat)
    requires TableOk(gs, es, si, hash, m) && VisitedTo(gs, fs, LastSlot(gs)) && k in m
    requires forall j | 0 <= j < |fs| :: ElementAt(es, fs[j])
    ensures i < |fs| && es[fs[i] / 15][fs[i] % 15].key == k
  {
    hide ReducedHash, Position, Placed;
    assert StoredIn(gs, es, k);
    var g: nat, n: nat :| Occ(gs, g, n) && es[g][n].key == k;
    TakenAt(gs, g, n);
    i :| 0 <= i < |fs| && fs[i] == 15 * g + n;
  }
}

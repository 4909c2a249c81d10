/** The open-addressing table: groups of 15 slots, triangular probing, overflow
    bits in place of tombstones, and a maximum load that shrinks on erase. */
module TableCore {
  import opened FiniteSets
  import opened Words
  import opened Wrappers
  import opened Prober
  import opened SizePolicy
  import opened Group
  import opened TableInvariant

  /** Where an element lives: group pg, position n in it. */
  datatype Locator = Locator(pg: nat, n: nat)

  /** Requests beyond this cannot be allocated on a 64-bit machine. */
  const MAX_ELEMENTS: nat := 0x1000_0000_0000_0000

  /** The paired arrays. A null element pointer is an array of length 0. */
  datatype TableArrays<K, V> = TableArrays(
    groupsSizeIndex: nat,
    groupsSizeMask: nat,
    groups: array<Group15>,
    elements: array<seq<Element<K, V>>>)
  {
    /** The arrays hold exactly the entries of m. */
    ghost predicate Valid(hash: K -> Word, m: map<K, V>)
      reads groups, elements
    {
      && groups.Length == groupsSizeMask + 1
      && 1 <= groupsSizeIndex <= 63
      && Searchable(groups[..], elements[..], groupsSizeIndex, hash, m)
      && (elements.Length != 0 ==> CellCount(groups[..]) == |m|)
    }

    /** Slot loc is occupied and holds x. */
    ghost predicate HoldsAt(loc: Locator, x: Element<K, V>)
      reads groups, elements
    {
      && elements.Length == groups.Length && Occ(groups[..], loc.pg, loc.n)
      && |elements[loc.pg]| == N && elements[loc.pg][loc.n] == x
    }

    function Capacity(): nat {
      if elements.Length != 0 then (groupsSizeMask + 1) * N - 1 else 0
    }

    function PositionFor(hash: Word): nat { Position(hash, groupsSizeIndex) }
  }

  /** The load at which the next insertion reallocates: all of a small table, 7/8 of a large one. */
  function InitialMaxLoad(capacity: nat): nat {
    if capacity <= 2 * N - 1 then capacity else 7 * capacity / 8
  }

  /** ceil(n / mlf), for mlf = 7/8. */
  function CeilOverMlf(n: nat): nat { (8 * n + 6) / 7 }

  lemma MaxLoadIs(c: nat)
    ensures if c <= 29 then InitialMaxLoad(c) == c
            else 8 * InitialMaxLoad(c) <= 7 * c < 8 * (InitialMaxLoad(c) + 1)
  {
  }

  lemma RequestIs(n: nat, c: nat)
    ensures c >= CeilOverMlf(n) <==> 7 * c >= 8 * n
  {
  }

  /** Elements requested when growing: room for one more, and to the next level if little was erased. */
  function GrowthRequest(size: nat): nat { CeilOverMlf(size + size / 61 + 1) }

  /** Growth arrays can be allocated, and leave room for at least one more element. */
  lemma GrowthGivesRoom(size: nat)
    requires size <= MAX_ELEMENTS
    ensures 0 < GrowthRequest(size) <= 16 * MAX_ELEMENTS
    ensures size + 1 <= InitialMaxLoad(CapacityFor(GrowthRequest(size))) <= CapacityFor(GrowthRequest(size))
  {
    CapacityForCovers(GrowthRequest(size));
  }

  /** A request of ceil(size / mlf) or more gives a maximum load of at least size. */
  lemma RequestCoversSize(size: nat, n: nat)
    requires n >= CeilOverMlf(size)
    ensures InitialMaxLoad(CapacityFor(n)) >= size
  {
    CapacityForCovers(n);
  }

  /** new_arrays(n): dummy groups for n == 0, otherwise initialised groups with a sentinel and n or more slots. */
  method NewArrays<K(0), V(0)>(n: nat, ghost hash: K -> Word) returns (a: TableArrays<K, V>)
    requires n <= 16 * MAX_ELEMENTS
    ensures a.Valid(hash, map[])
    ensures fresh(a.groups) && fresh(a.elements)
    ensures a.Capacity() == if n == 0 then 0 else CapacityFor(n)
  {
    CapacityForCovers(n);
    SizeIndexInRange(n / N + 1);
    var si := SizeIndexFor(n);
    if n == 0 {
      assert Pow2(1) == 2 && si == 63;
      var groups := new Group15[2](_ => SetSentinel(Initialized()));
      var elements := new seq<Element<K, V>>[0];
      a := TableArrays(si, 1, groups, elements);
    } else {
      a := SetArrays(si, hash);
    }
  }

  /** Allocation of 2^(64-si) initialised groups and their rows of raw element storage. */
  method SetArrays<K(0), V(0)>(si: nat, ghost hash: K -> Word) returns (a: TableArrays<K, V>)
    requires 1 <= si <= 63 && Size(si) >= 2
    ensures a.Valid(hash, map[]) && a.Capacity() == Size(si) * N - 1
    ensures fresh(a.groups) && fresh(a.elements)
  {
    var size := Size(si);
    var raw: Element<K, V> := *;
    var elements := new seq<Element<K, V>>[size](_ => seq(N, _ => raw));
    var groups := new Group15[size](_ => Initialized());
    groups[size - 1] := SetSentinel(groups[size - 1]);
    a := TableArrays(si, size - 1, groups, elements);
    FreshTable(groups[..], elements[..], si, hash);
  }

  /** Constructs x in slot n of the i-th probed group and records its reduced hash there. */
  method ConstructElement<K, V>(a: TableArrays<K, V>, x: Element<K, V>, pos: nat, n: nat, h: Word,
                                ghost hash: K -> Word, ghost m: map<K, V>, ghost gs: seq<Group15>, ghost i: nat)
    requires 1 <= a.groupsSizeIndex <= 63 && h == hash(x.key) && x.key !in m
    requires TableOk(gs, a.elements[..], a.groupsSizeIndex, hash, m) && CellCount(gs) == |m|
    requires OverflowGrew(gs, a.groups[..]) && a.groups.Length == Size(a.groupsSizeIndex)
    requires i < |gs| && pos == ProbePos(a.PositionFor(h), i, |gs|)
    requires PrefixMarked(a.groups[..], a.PositionFor(h), h % 8, i)
    requires n < N && a.groups[pos].slots[n] == AVAILABLE
    modifies a.groups, a.elements
    ensures TableOk(a.groups[..], a.elements[..], a.groupsSizeIndex, hash, m[x.key := x.value])
    ensures CellCount(a.groups[..]) == |m[x.key := x.value]| == |m| + 1
    ensures a.groups[..] == old(a.groups[..])[pos := Set(old(a.groups[pos]), n, h)]
    ensures Occ(a.groups[..], pos, n) && a.elements[pos][n] == x
    ensures KeepsCells(gs, old(a.elements[..]), a.groups[..], a.elements[..])
  {
    ghost var gs1, es := a.groups[..], a.elements[..];
    FillKeepsTable(gs, gs1, es, a.groupsSizeIndex, hash, m, x, i, n);
    MapInsertSize(m, x.key, x.value);
    a.elements[pos] := a.elements[pos][n := x];
    a.groups[pos] := Set(a.groups[pos], n, h);
    assert a.groups[..] == gs1[pos := Set(gs1[pos], n, h)];
    assert a.elements[..] == es[pos := es[pos][n := x]];
  }

  /** Insertion into arrays known to have a free slot and not to hold the key. The probe loop has
      no exit test: it stops because the prober visits every group. */
  method NosizeUncheckedEmplaceAt<K, V>(a: TableArrays<K, V>, x: Element<K, V>, ghost hash: K -> Word,
                                        ghost m: map<K, V>, pos0: nat, h: Word)
    returns (loc: Locator)
    requires a.Valid(hash, m) && x.key !in m
    requires h == hash(x.key) && pos0 == a.PositionFor(h)
    requires |m| < a.Capacity()
    modifies a.groups, a.elements
    ensures a.Valid(hash, m[x.key := x.value])
    ensures |m[x.key := x.value]| == |m| + 1
    ensures a.HoldsAt(loc, x)
    ensures TookFirstFree(old(a.groups[..]), a.groups[..], pos0, h, loc.pg, loc.n)
    ensures KeepsCells(old(a.groups[..]), old(a.elements[..]), a.groups[..], a.elements[..])
  {
    hide TableOk, ElementsOk, Holds, CellCount, Searchable, LayoutOk, PrefixMarked, FullPrefix, MarkedExactly,
        OverflowGrew,
      KeepsCells, TookFirstFree, Size;
    ghost var gs, es := a.groups[..], a.elements[..];
    SearchableParts(gs, es, a.groupsSizeIndex, hash, m);
    ProbeNothing(gs, pos0, h % 8);
    PositionInRange(h, a.groupsSizeIndex);
    var pb := new Pow2QuadraticProber(pos0);
    ProbeStart(pos0, |gs|);
    while true
      invariant a.elements[..] == es
      invariant OverflowGrew(gs, a.groups[..])
      invariant pb.step < |gs| && pb.pos == ProbePos(pos0, pb.step, |gs|)
      invariant PrefixMarked(a.groups[..], pos0, h % 8, pb.step)
      invariant FullPrefix(gs, pos0, pb.step)
      invariant MarkedExactly(gs, a.groups[..], pos0, h % 8, pb.step)
      decreases |gs| - pb.step
    {
      var pos := pb.pos;
      var mask := MatchAvailable(a.groups[pos]);
      if NonZero(mask) {
        var n := CountrZero(mask);
        ghost var gs1 := a.groups[..];
        ConstructElement(a, x, pos, n, h, hash, m, gs, pb.step);
        FirstFree(gs, gs1, a.groups[..], pos0, h, pb.step, n);
        SearchableAgain(a.groups[..], a.elements[..], a.groupsSizeIndex, hash, m[x.key := x.value]);
        return Locator(pos, n);
      }
      ghost var gs1 := a.groups[..];
      a.groups[pos] := MarkOverflow(a.groups[pos], h);
      assert a.groups[..] == gs1[pos := MarkOverflow(gs1[pos], h)];
      MarkStep(gs, gs1, pos0, h, pb.step);
      MarkExact(gs, gs1, pos0, h, pb.step);
      FullPrefixIsShort(gs, a.groupsSizeIndex, pos0, pb.step + 1);
      ProbeStep(pos0, pb.step, |gs|);
      var _ := pb.Next(a.groupsSizeMask, 64 - a.groupsSizeIndex);
    }
  }

  /** Compares x with the candidates that the group's metadata selects, lowest position first. */
  method FindInGroup<K(==), V>(gs: seq<Group15>, es: seq<seq<Element<K, V>>>, pos: nat, x: K, h: Word, ghost si: nat,
                               ghost hash: K -> Word, ghost m: map<K, V>)
    returns (r: Option<nat>)
    requires Searchable(gs, es, si, hash, m) && pos < |gs| && h == hash(x)
    ensures r.Some? ==> Occ(gs, pos, r.value) && x in m && RowsOk(gs, es) && es[pos][r.value] == Element(x, m[x])
    ensures r.None? ==> NoMatch(gs[pos], es, pos, x, h)
  {
    var mask := Match(gs[pos], h);
    while NonZero(mask)
      invariant forall n: nat | n < N && mask[n] :: gs[pos].slots[n] == ReducedHash(h)
      invariant forall n: nat | n < N && gs[pos].slots[n] == ReducedHash(h) && !mask[n] ::
                  pos < |es| && n < |es[pos]| && es[pos][n].key != x
      decreases PopCount(mask)
    {
      var n := CountrZero(mask);
      SearchHit(gs, es, si, hash, m, x, pos, n);
      if es[pos][n].key == x {
        return Some(n);
      }
      PopCountClear(mask, n);
      mask := ClearLowest(mask);
    }
    r := None;
  }

  /** Lookup: follow the probe until the key is met, or a group is met that no element with
      this hash modulo 8 ever overflowed, or all groups have been seen. */
  method FindIn<K(==), V>(gs: seq<Group15>, es: seq<seq<Element<K, V>>>, si: nat, x: K, pos0: nat, h: Word,
                          ghost hash: K -> Word, ghost m: map<K, V>)
    returns (loc: Option<Locator>)
    requires Searchable(gs, es, si, hash, m) && h == hash(x) && pos0 == Position(h, si)
    ensures loc.Some? <==> x in m
    ensures loc.Some? ==> RowsOk(gs, es) && Occ(gs, loc.value.pg, loc.value.n)
                          && es[loc.value.pg][loc.value.n] == Element(x, m[x])
  {
    assert 1 <= si <= 63 && |gs| == Pow2(64 - si) && |gs| >= 1;
    hide Searchable, Searched, RowsOk, NoMatch, Occ;
    PositionInRange(h, si);
    ProbeStart(pos0, |gs|);
    var pb := new Pow2QuadraticProber(pos0);
    assert Searched(gs, es, x, pos0, 0) by {
      SearchStart(gs, es, si, hash, m, x);
    }
    while true
      invariant pb.step < |gs| && pb.pos == ProbePos(pos0, pb.step, |gs|)
      invariant Searched(gs, es, x, pos0, pb.step)
      decreases |gs| - pb.step
    {
      var pos := pb.pos;
      var n := FindInGroup(gs, es, pos, x, h, si, hash, m);
      if n.Some? {
        return Some(Locator(pos, n.value));
      }
      SearchStep(gs, es, si, hash, m, x, pb.step);
      if IsNotOverflowed(gs[pos], h) {
        return None;
      }
      ProbeStep(pos0, pb.step, |gs|);
      var more := pb.Next(|gs| - 1, 64 - si);
      if !more {
        return None;
      }
    }
  }

  /** Part of a transfer: cur is m0 and the entries of m in the slots already left behind,
      those of the groups before pg and those of group pg no longer in the mask. */
  ghost predicate Transferred<K, V>(gs: seq<Group15>, es: seq<seq<Element<K, V>>>, m: map<K, V>, m0: map<K, V>,
                                    cur: map<K, V>, pg: nat, mask: Mask)
    requires RowsOk(gs, es)
  {
    && (forall k | k in cur :: if k in m0 then cur[k] == m0[k] else k in m && cur[k] == m[k])
    && m0.Keys <= cur.Keys
    && (forall n: nat | n < N && mask[n] :: Occ(gs, pg, n))
    && forall g: nat, n: nat {:trigger es[g][n]} | Occ(gs, g, n) ::
        es[g][n].key in cur <==> g < pg || (g == pg && !mask[n])
  }

  function NoSlots(): (m: Mask)
    ensures !NonZero(m)
  {
    seq(15, _ => false)
  }

  /** The mask that for_all_elements starts with in group pg; none past the last group. */
  function StartMask(gs: seq<Group15>, pg: nat): Mask {
    if pg < |gs| then MatchReallyOccupied(gs[pg], pg == |gs| - 1) else NoSlots()
  }

  lemma TransferStart<K, V>(gs: seq<Group15>, es: seq<seq<Element<K, V>>>, m: map<K, V>, m0: map<K, V>)
    requires Holds(gs, es, m) && m.Keys !! m0.Keys
    ensures RowsOk(gs, es) && Transferred(gs, es, m, m0, m0, 0, StartMask(gs, 0))
  {
  }

  lemma TransferRoom<K, V>(m: map<K, V>, m0: map<K, V>, cur: map<K, V>, k: K)
    requires m.Keys !! m0.Keys && cur.Keys <= m.Keys + m0.Keys
    requires k in m && k !in cur
    ensures |cur| < |m| + |m0|
  {
    SubsetSize(cur.Keys + {k}, m.Keys + m0.Keys);
    assert |m.Keys + m0.Keys| == |m| + |m0|;
    assert |cur.Keys| == |cur|;
  }

  lemma TransferDone<K, V>(gs: seq<Group15>, es: seq<seq<Element<K, V>>>, m: map<K, V>, m0: map<K, V>, cur: map<K, V>)
    requires RowsOk(gs, es) && Holds(gs, es, m) && m.Keys !! m0.Keys
    requires Transferred(gs, es, m, m0, cur, |gs|, NoSlots())
    ensures cur == m0 + m
  {
    forall k | k in m ensures k in cur {
      assert StoredIn(gs, es, k);
    }
  }

  lemma TransferNextGroup<K, V>(gs: seq<Group15>, es: seq<seq<Element<K, V>>>, m: map<K, V>, m0: map<K, V>,
                                cur: map<K, V>, pg: nat, mask: Mask)
    requires RowsOk(gs, es) && Transferred(gs, es, m, m0, cur, pg, mask) && !NonZero(mask)
    ensures Transferred(gs, es, m, m0, cur, pg + 1, StartMask(gs, pg + 1))
  {
    forall g: nat, n: nat | Occ(gs, g, n)
      ensures es[g][n].key in cur <==> g < pg + 1 || (g == pg + 1 && !StartMask(gs, pg + 1)[n])
    {
      assert es[g][n].key in cur <==> g < pg || (g == pg && !mask[n]);
    }
  }

  lemma TransferStep<K, V>(gs: seq<Group15>, es: seq<seq<Element<K, V>>>, si: nat, hash: K -> Word, m: map<K, V>,
                           m0: map<K, V>, cur: map<K, V>, pg: nat, mask: Mask)
    requires ElementsOk(gs, es, si, hash) && Holds(gs, es, m) && m.Keys !! m0.Keys
    requires Transferred(gs, es, m, m0, cur, pg, mask) && NonZero(mask)
    ensures Occ(gs, pg, CountrZero(mask))
    ensures var x := es[pg][CountrZero(mask)];
            && x.key in m && m[x.key] == x.value && x.key !in cur
            && |cur| < |m| + |m0|
            && Transferred(gs, es, m, m0, cur[x.key := x.value], pg, ClearLowest(mask))
  {
    var n := CountrZero(mask);
    var x := es[pg][n];
    assert Occ(gs, pg, n) && IsEntry(m, x);
    assert x.key !in cur;
    TransferRoom(m, m0, cur, x.key);
    TransferredNext(gs, es, si, hash, m, m0, cur, pg, mask);
  }

  lemma TransferredNext<K, V>(gs: seq<Group15>, es: seq<seq<Element<K, V>>>, si: nat, hash: K -> Word, m: map<K, V>,
                              m0: map<K, V>, cur: map<K, V>, pg: nat, mask: Mask)
    requires ElementsOk(gs, es, si, hash) && m.Keys !! m0.Keys
    requires Transferred(gs, es, m, m0, cur, pg, mask) && NonZero(mask)
    requires var x := es[pg][CountrZero(mask)]; IsEntry(m, x) && x.key !in cur
    ensures var x := es[pg][CountrZero(mask)];
            Transferred(gs, es, m, m0, cur[x.key := x.value], pg, ClearLowest(mask))
  {
    var n := CountrZero(mask);
    var x := es[pg][n];
    var cur', mask' := cur[x.key := x.value], ClearLowest(mask);
    forall g: nat, n': nat | Occ(gs, g, n')
      ensures es[g][n'].key in cur' <==> g < pg || (g == pg && !mask'[n'])
    {
      assert es[g][n'].key == x.key ==> g == pg && n' == n;
    }
  }

  /** Moves every element of a into b, group by group and lowest position first. */
  method TransferElements<K, V>(a: TableArrays<K, V>, b: TableArrays<K, V>, hash: K -> Word, ghost m: map<K, V>,
                                ghost m0: map<K, V>)
    requires a.Valid(hash, m) && b.Valid(hash, m0) && m.Keys !! m0.Keys
    requires |m| + |m0| <= b.Capacity()
    requires a.groups != b.groups && a.elements != b.elements
    modifies b.groups, b.elements
    ensures b.Valid(hash, m0 + m)
    ensures b.elements.Length != 0 ==> KeepsCells(old(b.groups[..]), old(b.elements[..]), b.groups[..], b.elements[..])
  {
    hide ElementsOk, Holds, CellCount, LayoutOk, Transferred, KeepsCells;
    if b.elements.Length != 0 {
      SearchableParts(b.groups[..], b.elements[..], b.groupsSizeIndex, hash, m0);
      KeepsItself(b.groups[..], b.elements[..]);
    }
    if a.elements.Length == 0 {
      assert m0 + m == m0;
      return;
    }
    TransferStart(a.groups[..], a.elements[..], m, m0);
    ghost var gs, es, cur := a.groups[..], a.elements[..], m0;
    ghost var bgs, bes := b.groups[..], b.elements[..];
    var pg := 0;
    while pg != a.groupsSizeMask + 1
      invariant pg <= |gs| && a.groups[..] == gs && a.elements[..] == es
      invariant b.Valid(hash, cur) && (b.elements.Length != 0 ==> KeepsCells(bgs, bes, b.groups[..], b.elements[..]))
      invariant Transferred(gs, es, m, m0, cur, pg, StartMask(gs, pg))
      decreases |gs| - pg
    {
      ghost var bgs1, bes1 := b.groups[..], b.elements[..];
      cur := TransferGroup(a, b, hash, m, m0, cur, pg);
      if b.elements.Length != 0 {
        KeepsBoth(bgs, bes, bgs1, bes1, b.groups[..], b.elements[..]);
      }
      pg := pg + 1;
    }
    TransferDone(gs, es, m, m0, cur);
  }

  /** Moves the elements of one group. */
  method TransferGroup<K, V>(a: TableArrays<K, V>, b: TableArrays<K, V>, hash: K -> Word, ghost m: map<K, V>,
                             ghost m0: map<K, V>, ghost cur0: map<K, V>, pg: nat)
    returns (ghost cur: map<K, V>)
    requires a.Valid(hash, m) && b.Valid(hash, cur0) && m.Keys !! m0.Keys && a.elements.Length != 0
    requires |m| + |m0| <= b.Capacity() && pg <= a.groupsSizeMask && RowsOk(a.groups[..], a.elements[..])
    requires a.groups != b.groups && a.elements != b.elements
    requires Transferred(a.groups[..], a.elements[..], m, m0, cur0, pg, StartMask(a.groups[..], pg))
    modifies b.groups, b.elements
    ensures b.Valid(hash, cur)
    ensures Transferred(a.groups[..], a.elements[..], m, m0, cur, pg + 1, StartMask(a.groups[..], pg + 1))
    ensures b.elements.Length != 0 ==> KeepsCells(old(b.groups[..]), old(b.elements[..]), b.groups[..], b.elements[..])
  {
    hide ElementsOk, Holds, CellCount, LayoutOk, Transferred, KeepsCells;
    ghost var gs, es := a.groups[..], a.elements[..];
    ghost var bgs, bes := b.groups[..], b.elements[..];
    cur := cur0;
    if b.elements.Length != 0 {
      SearchableParts(bgs, bes, b.groupsSizeIndex, hash, cur0);
      KeepsItself(bgs, bes);
    }
    var mask := MatchReallyOccupied(a.groups[pg], pg == a.groupsSizeMask);
    while NonZero(mask)
      invariant a.groups[..] == gs && a.elements[..] == es
      invariant b.Valid(hash, cur) && (b.elements.Length != 0 ==> KeepsCells(bgs, bes, b.groups[..], b.elements[..]))
      invariant Transferred(gs, es, m, m0, cur, pg, mask)
      decreases PopCount(mask)
    {
      var n := CountrZero(mask);
      TransferStep(gs, es, a.groupsSizeIndex, hash, m, m0, cur, pg, mask);
      ghost var bgs1, bes1 := b.groups[..], b.elements[..];
      NosizeTransferElement(b, a.elements[pg][n], hash, cur);
      KeepsBoth(bgs, bes, bgs1, bes1, b.groups[..], b.elements[..]);
      cur := cur[a.elements[pg][n].key := a.elements[pg][n].value];
      PopCountClear(mask, n);
      mask := ClearLowest(mask);
    }
    TransferNextGroup(gs, es, m, m0, cur, pg, mask);
  }

  method NosizeTransferElement<K, V>(b: TableArrays<K, V>, x: Element<K, V>, hash: K -> Word, ghost m: map<K, V>)
    requires b.Valid(hash, m) && x.key !in m && |m| < b.Capacity()
    modifies b.groups, b.elements
    ensures b.Valid(hash, m[x.key := x.value])
    ensures KeepsCells(old(b.groups[..]), old(b.elements[..]), b.groups[..], b.elements[..])
  {
    var h := hash(x.key);
    var _ := NosizeUncheckedEmplaceAt(b, x, hash, m, b.PositionFor(h), h);
  }
}

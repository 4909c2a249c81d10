/** What a paired group array and element array must satisfy for lookup to be
    exact, and the steps that keep it: marking overflow, filling a slot,
    emptying a slot. Stated on sequences; the table's methods work on arrays. */
module TableInvariant {
  import opened FiniteSets
  import opened Words
  import opened Prober
  import opened SizePolicy
  import opened Group

  datatype Element<K, V> = Element(key: K, value: V)

  /** One row of 15 elements for each group. */
  ghost predicate RowsOk<K, V>(gs: seq<Group15>, es: seq<seq<Element<K, V>>>) {
    |es| == |gs| && forall g | 0 <= g < |es| :: |es[g]| == N
  }

  /** Position n of group g exists as an element slot: all but the sentinel's. */
  ghost predicate IsCell(gs: seq<Group15>, g: nat, n: nat) {
    g < |gs| && n < N && !(g == |gs| - 1 && n == N - 1)
  }

  ghost predicate Occ(gs: seq<Group15>, g: nat, n: nat) {
    IsCell(gs, g, n) && gs[g].slots[n] != AVAILABLE
  }

  ghost function Cells(gs: seq<Group15>): set<(nat, nat)> {
    set g: nat, n: nat | g < |gs| && n < N && Occ(gs, g, n) :: (g, n)
  }

  /** Metadata layout: 2^(64-si) groups, the sentinel mark exactly in the last slot. */
  ghost predicate LayoutOk(gs: seq<Group15>, si: int) {
    && 1 <= si <= 63
    && |gs| == Size(si)
    && |gs| >= 2
    && gs[|gs| - 1].slots[N - 1] == SENTINEL
    && forall g: nat, n: nat {:trigger IsCell(gs, g, n)} | IsCell(gs, g, n) :: gs[g].slots[n] != SENTINEL
  }

  /** The first i groups probed from pos0 have overflow bit ov set. */
  ghost predicate PrefixMarked(gs: seq<Group15>, pos0: nat, ov: nat, i: nat)
    requires ov < 8 && |gs| >= 1
  {
    forall j | 0 <= j < i :: gs[ProbePos(pos0, j, |gs|)].overflow[ov]
  }

  /** Lookup from pos0 gets to group g without meeting a clear overflow bit. */
  ghost predicate Reachable(gs: seq<Group15>, pos0: nat, ov: nat, g: nat)
    requires ov < 8 && |gs| >= 1
  {
    exists i :: 0 <= i < |gs| && ProbePos(pos0, i, |gs|) == g && PrefixMarked(gs, pos0, ov, i)
  }

  ghost predicate Placed<K>(gs: seq<Group15>, si: nat, hash: K -> Word, key: K, g: nat, n: nat)
    requires g < |gs| && n < N
  {
    && gs[g].slots[n] == ReducedHash(hash(key))
    && Reachable(gs, Position(hash(key), si), hash(key) % 8, g)
  }

  /** Every occupied slot holds a key that lookup can reach, and no key sits in two slots. */
  ghost predicate ElementsOk<K, V>(gs: seq<Group15>, es: seq<seq<Element<K, V>>>, si: nat, hash: K -> Word) {
    && RowsOk(gs, es)
    && (forall g: nat, n: nat {:trigger es[g][n]} | Occ(gs, g, n) ::
          Placed(gs, si, hash, es[g][n].key, g, n))
    && (forall g: nat, n: nat, g': nat, n': nat {:trigger es[g][n], es[g'][n']} |
          Occ(gs, g, n) && Occ(gs, g', n') && es[g][n].key == es[g'][n'].key ::
          g == g' && n == n')
  }

  /** The occupied slots hold exactly the entries of m, one slot for each. */
  ghost predicate Holds<K, V>(gs: seq<Group15>, es: seq<seq<Element<K, V>>>, m: map<K, V>) {
    && RowsOk(gs, es)
    && (forall g: nat, n: nat {:trigger es[g][n]} | Occ(gs, g, n) :: IsEntry(m, es[g][n]))
    && (forall k {:trigger StoredIn(gs, es, k)} | k in m :: StoredIn(gs, es, k))
  }

  ghost function CellCount(gs: seq<Group15>): nat { |Cells(gs)| }

  ghost predicate IsEntry<K, V>(m: map<K, V>, e: Element<K, V>) {
    e.key in m && m[e.key] == e.value
  }

  ghost predicate StoredIn<K, V>(gs: seq<Group15>, es: seq<seq<Element<K, V>>>, k: K)
    requires RowsOk(gs, es)
  {
    exists g: nat, n: nat :: Occ(gs, g, n) && es[g][n].key == k
  }

  ghost predicate TableOk<K, V>(gs: seq<Group15>, es: seq<seq<Element<K, V>>>, si: int, hash: K -> Word, m: map<K, V>) {
    && LayoutOk(gs, si)
    && ElementsOk(gs, es, si, hash)
    && Holds(gs, es, m)
  }

  /** What lookup may assume of the arrays: a table holding m, or the dummy groups of an unallocated one. */
  ghost predicate Searchable<K, V>(gs: seq<Group15>, es: seq<seq<Element<K, V>>>, si: int, hash: K -> Word,
                                   m: map<K, V>) {
    if es == [] then
      && 1 <= si <= 63 && |gs| == Size(si) == MIN_SIZE && m == map[]
      && gs[0] == gs[1] == SetSentinel(Initialized())
    else
      TableOk(gs, es, si, hash, m)
  }

  lemma SearchableParts<K, V>(gs: seq<Group15>, es: seq<seq<Element<K, V>>>, si: int, hash: K -> Word, m: map<K, V>)
    requires Searchable(gs, es, si, hash, m) && es != []
    ensures TableOk(gs, es, si, hash, m) && LayoutOk(gs, si) && RowsOk(gs, es)
    ensures 1 <= si <= 63 && |gs| == Size(si) == Pow2(64 - si) && |gs| >= 2
  {
  }

  lemma SearchableAgain<K, V>(gs: seq<Group15>, es: seq<seq<Element<K, V>>>, si: int, hash: K -> Word, m: map<K, V>)
    requires TableOk(gs, es, si, hash, m)
    ensures es != [] && RowsOk(gs, es) && Searchable(gs, es, si, hash, m)
  {
  }

  /** Same slot bytes, and overflow bits only added. */
  ghost predicate OverflowGrew(gs: seq<Group15>, gs': seq<Group15>) {
    && |gs'| == |gs|
    && (forall g | 0 <= g < |gs| :: gs'[g].slots == gs[g].slots)
    && (forall g, b | 0 <= g < |gs| && 0 <= b < 8 && gs[g].overflow[b] :: gs'[g].overflow[b])
  }

  /** Every occupied slot stays occupied, by the same element. */
  ghost predicate KeepsCells<K, V>(gs: seq<Group15>, es: seq<seq<Element<K, V>>>, gs': seq<Group15>,
                                   es': seq<seq<Element<K, V>>>)
  {
    && RowsOk(gs, es) && RowsOk(gs', es')
    && forall g: nat, n: nat {:trigger Occ(gs, g, n)} | Occ(gs, g, n) :: Occ(gs', g, n) && es'[g][n] == es[g][n]
  }

  lemma KeepsItself<K, V>(gs: seq<Group15>, es: seq<seq<Element<K, V>>>)
    requires RowsOk(gs, es)
    ensures KeepsCells(gs, es, gs, es)
  {
  }

  lemma KeepsBoth<K, V>(gs: seq<Group15>, es: seq<seq<Element<K, V>>>, gs1: seq<Group15>,
                        es1: seq<seq<Element<K, V>>>, gs2: seq<Group15>, es2: seq<seq<Element<K, V>>>)
    requires KeepsCells(gs, es, gs1, es1) && KeepsCells(gs1, es1, gs2, es2)
    ensures KeepsCells(gs, es, gs2, es2)
  {
  }

  lemma KeptCell<K, V>(gs: seq<Group15>, es: seq<seq<Element<K, V>>>, gs': seq<Group15>, es': seq<seq<Element<K, V>>>,
                       g: nat, n: nat)
    requires KeepsCells(gs, es, gs', es') && Occ(gs, g, n)
    ensures |es'| == |gs'| && Occ(gs', g, n) && g < |es| && g < |es'| && |es[g]| == |es'[g]| == N
    ensures es'[g][n] == es[g][n]
  {
  }

  lemma ReachableGrows(gs: seq<Group15>, gs': seq<Group15>, pos0: nat, ov: nat, g: nat)
    requires ov < 8 && 1 <= |gs| == |gs'|
    requires forall h | 0 <= h < |gs| && gs[h].overflow[ov] :: gs'[h].overflow[ov]
    requires Reachable(gs, pos0, ov, g)
    ensures Reachable(gs', pos0, ov, g)
  {
    var i :| 0 <= i < |gs| && ProbePos(pos0, i, |gs|) == g && PrefixMarked(gs, pos0, ov, i);
    assert PrefixMarked(gs', pos0, ov, i);
  }

  /** Slot (g, n) goes from available to occupied by x; other slots and elements stay, overflow bits only grow. */
  ghost predicate Fills<K, V>(gs: seq<Group15>, gs': seq<Group15>, es: seq<seq<Element<K, V>>>,
                              es': seq<seq<Element<K, V>>>, g: nat, n: nat, x: Element<K, V>) {
    && |gs'| == |gs| && RowsOk(gs, es) && RowsOk(gs', es')
    && IsCell(gs, g, n)
    && gs[g].slots[n] == AVAILABLE && gs'[g].slots[n] >= 2 && es'[g][n] == x
    && (forall g': nat, n': nat | g' < |gs| && n' < N && !(g' == g && n' == n) :: gs'[g'].slots[n'] == gs[g'].slots[n'])
    && (forall g': nat, n': nat | IsCell(gs, g', n') && !(g' == g && n' == n) :: es'[g'][n'] == es[g'][n'])
    && (forall g': nat, b: nat | g' < |gs| && b < 8 && gs[g'].overflow[b] :: gs'[g'].overflow[b])
  }

  lemma FillsOcc<K, V>(gs: seq<Group15>, gs': seq<Group15>, es: seq<seq<Element<K, V>>>, es': seq<seq<Element<K, V>>>,
                       g: nat, n: nat, x: Element<K, V>)
    requires Fills(gs, gs', es, es', g, n, x)
    ensures forall g': nat, n': nat :: Occ(gs', g', n') <==> Occ(gs, g', n') || (g' == g && n' == n)
  {
  }

  lemma FillsLayout<K, V>(gs: seq<Group15>, gs': seq<Group15>, es: seq<seq<Element<K, V>>>,
                          es': seq<seq<Element<K, V>>>, si: int, g: nat, n: nat, x: Element<K, V>)
    requires Fills(gs, gs', es, es', g, n, x) && LayoutOk(gs, si)
    ensures LayoutOk(gs', si)
  {
    forall g': nat, n': nat | IsCell(gs', g', n') ensures gs'[g'].slots[n'] != SENTINEL {
      assert IsCell(gs, g', n');
    }
  }

  lemma FillsCount<K, V>(gs: seq<Group15>, gs': seq<Group15>, es: seq<seq<Element<K, V>>>,
                         es': seq<seq<Element<K, V>>>, g: nat, n: nat, x: Element<K, V>)
    requires Fills(gs, gs', es, es', g, n, x)
    ensures CellCount(gs') == CellCount(gs) + 1
  {
    FillsOcc(gs, gs', es, es', g, n, x);
    assert Cells(gs') == Cells(gs) + {(g, n)};
    assert (g, n) !in Cells(gs);
  }

  lemma FillsElements<K, V>(gs: seq<Group15>, gs': seq<Group15>, es: seq<seq<Element<K, V>>>,
                            es': seq<seq<Element<K, V>>>, si: nat, hash: K -> Word, g: nat, n: nat, x: Element<K, V>)
    requires Fills(gs, gs', es, es', g, n, x) && ElementsOk(gs, es, si, hash)
    requires Placed(gs', si, hash, x.key, g, n)
    requires forall g': nat, n': nat | Occ(gs, g', n') :: es[g'][n'].key != x.key
    ensures ElementsOk(gs', es', si, hash)
  {
    FillsOcc(gs, gs', es, es', g, n, x);
    forall g': nat, n': nat | Occ(gs', g', n')
      ensures Placed(gs', si, hash, es'[g'][n'].key, g', n')
    {
      if !(g' == g && n' == n) {
        var k := es[g'][n'].key;
        assert Occ(gs, g', n') && Placed(gs, si, hash, k, g', n');
        ReachableGrows(gs, gs', Position(hash(k), si), hash(k) % 8, g');
      }
    }
  }

  lemma FillsStored<K, V>(gs: seq<Group15>, gs': seq<Group15>, es: seq<seq<Element<K, V>>>,
                          es': seq<seq<Element<K, V>>>, g: nat, n: nat, x: Element<K, V>)
    requires Fills(gs, gs', es, es', g, n, x)
    ensures forall k :: StoredIn(gs', es', k) <==> StoredIn(gs, es, k) || k == x.key
  {
    FillsOcc(gs, gs', es, es', g, n, x);
    forall k | StoredIn(gs, es, k) ensures StoredIn(gs', es', k) {
      var g': nat, n': nat :| Occ(gs, g', n') && es[g'][n'].key == k;
      assert Occ(gs', g', n');
    }
    forall k | StoredIn(gs', es', k) && k != x.key ensures StoredIn(gs, es, k) {
      var g': nat, n': nat :| Occ(gs', g', n') && es'[g'][n'].key == k;
      assert Occ(gs, g', n');
    }
    assert Occ(gs', g, n);
  }

  lemma FillsHolds<K, V>(gs: seq<Group15>, gs': seq<Group15>, es: seq<seq<Element<K, V>>>,
                         es': seq<seq<Element<K, V>>>, m: map<K, V>, g: nat, n: nat, x: Element<K, V>)
    requires Fills(gs, gs', es, es', g, n, x) && Holds(gs, es, m) && x.key !in m
    ensures Holds(gs', es', m[x.key := x.value])
  {
    FillsOcc(gs, gs', es, es', g, n, x);
    var m' := m[x.key := x.value];
    forall g': nat, n': nat | Occ(gs', g', n') ensures IsEntry(m', es'[g'][n']) {
      if g' == g && n' == n {
        assert es'[g'][n'] == x;
      } else {
        assert Occ(gs, g', n') && es'[g'][n'] == es[g'][n'];
        assert IsEntry(m, es[g'][n']);
      }
    }
    assert forall k | k in m' :: StoredIn(gs', es', k) by {
      FillsStored(gs, gs', es, es', g, n, x);
    }
  }

  /** Filling the first free slot met by the probe, having marked the full groups before it,
      adds exactly the new entry and keeps every entry reachable. */
  lemma FillKeepsTable<K, V>(gs: seq<Group15>, gs1: seq<Group15>, es: seq<seq<Element<K, V>>>, si: int,
                             hash: K -> Word, m: map<K, V>, x: Element<K, V>, i: nat, n: nat)
    requires TableOk(gs, es, si, hash, m) && x.key !in m
    requires OverflowGrew(gs, gs1)
    requires i < |gs| && n < N
    requires PrefixMarked(gs1, Position(hash(x.key), si), hash(x.key) % 8, i)
    requires gs[ProbePos(Position(hash(x.key), si), i, |gs|)].slots[n] == AVAILABLE
    ensures var g := ProbePos(Position(hash(x.key), si), i, |gs|);
            && IsCell(gs, g, n)
            && TableOk(gs1[g := Set(gs1[g], n, hash(x.key))], es[g := es[g][n := x]], si, hash, m[x.key := x.value])
            && CellCount(gs1[g := Set(gs1[g], n, hash(x.key))]) == CellCount(gs) + 1
            && KeepsCells(gs, es, gs1[g := Set(gs1[g], n, hash(x.key))], es[g := es[g][n := x]])
  {
    var h, pos0 := hash(x.key), Position(hash(x.key), si);
    var g := ProbePos(pos0, i, |gs|);
    var gs2, es2 := gs1[g := Set(gs1[g], n, h)], es[g := es[g][n := x]];
    assert Fills(gs, gs2, es, es2, g, n, x);
    assert PrefixMarked(gs2, pos0, h % 8, i);
    assert Placed(gs2, si, hash, x.key, g, n);
    FillsLayout(gs, gs2, es, es2, si, g, n, x);
    FillsElements(gs, gs2, es, es2, si, hash, g, n, x);
    FillsHolds(gs, gs2, es, es2, m, g, n, x);
    FillsCount(gs, gs2, es, es2, g, n, x);
    assert KeepsCells(gs, es, gs2, es2) by {
      FillsOcc(gs, gs2, es, es2, g, n, x);
    }
  }

  lemma EmptiesOcc(gs: seq<Group15>, g: nat, n: nat)
    requires Occ(gs, g, n)
    ensures var gs' := gs[g := Reset(gs[g], n)];
            forall g': nat, n': nat :: Occ(gs', g', n') <==> Occ(gs, g', n') && !(g' == g && n' == n)
  {
  }

  lemma EmptiesLayout(gs: seq<Group15>, si: int, g: nat, n: nat)
    requires Occ(gs, g, n) && LayoutOk(gs, si)
    ensures LayoutOk(gs[g := Reset(gs[g], n)], si)
  {
    var gs' := gs[g := Reset(gs[g], n)];
    forall g': nat, n': nat | IsCell(gs', g', n') ensures gs'[g'].slots[n'] != SENTINEL {
      assert IsCell(gs, g', n');
    }
  }

  lemma EmptiesCount(gs: seq<Group15>, g: nat, n: nat)
    requires Occ(gs, g, n)
    ensures CellCount(gs[g := Reset(gs[g], n)]) == CellCount(gs) - 1
  {
    EmptiesOcc(gs, g, n);
    assert Cells(gs[g := Reset(gs[g], n)]) == Cells(gs) - {(g, n)};
    assert (g, n) in Cells(gs);
  }

  lemma EmptiesElements<K, V>(gs: seq<Group15>, es: seq<seq<Element<K, V>>>, si: nat, hash: K -> Word, g: nat, n: nat)
    requires ElementsOk(gs, es, si, hash) && Occ(gs, g, n)
    ensures ElementsOk(gs[g := Reset(gs[g], n)], es, si, hash)
  {
    var gs' := gs[g := Reset(gs[g], n)];
    EmptiesOcc(gs, g, n);
    forall g': nat, n': nat | Occ(gs', g', n')
      ensures Placed(gs', si, hash, es[g'][n'].key, g', n')
    {
      var k := es[g'][n'].key;
      assert Occ(gs, g', n') && Placed(gs, si, hash, k, g', n');
      ReachableGrows(gs, gs', Position(hash(k), si), hash(k) % 8, g');
    }
  }

  lemma EmptiesHolds<K, V>(gs: seq<Group15>, es: seq<seq<Element<K, V>>>, si: nat, hash: K -> Word, m: map<K, V>,
                           g: nat, n: nat)
    requires ElementsOk(gs, es, si, hash) && Holds(gs, es, m) && Occ(gs, g, n)
    ensures Holds(gs[g := Reset(gs[g], n)], es, m - {es[g][n].key})
  {
    var gs', m' := gs[g := Reset(gs[g], n)], m - {es[g][n].key};
    EmptiesOcc(gs, g, n);
    forall k | k in m' ensures StoredIn(gs', es, k) {
      assert StoredIn(gs, es, k);
      var g': nat, n': nat :| Occ(gs, g', n') && es[g'][n'].key == k;
      assert Occ(gs', g', n');
    }
    forall g': nat, n': nat | Occ(gs', g', n') ensures IsEntry(m', es[g'][n']) {
      assert Occ(gs, g', n') && IsEntry(m, es[g'][n']);
    }
  }

  /** Emptying a slot removes exactly that entry; overflow bits stay, so the others remain reachable. */
  lemma EmptyKeepsTable<K, V>(gs: seq<Group15>, es: seq<seq<Element<K, V>>>, si: int, hash: K -> Word, m: map<K, V>,
                              g: nat, n: nat)
    requires TableOk(gs, es, si, hash, m) && Occ(gs, g, n)
    ensures es[g][n].key in m
    ensures TableOk(gs[g := Reset(gs[g], n)], es, si, hash, m - {es[g][n].key})
    ensures CellCount(gs[g := Reset(gs[g], n)]) == CellCount(gs) - 1
  {
    assert IsEntry(m, es[g][n]);
    EmptiesLayout(gs, si, g, n);
    EmptiesElements(gs, es, si, hash, g, n);
    EmptiesHolds(gs, es, si, hash, m, g, n);
    EmptiesCount(gs, g, n);
  }

  /** A lookup that has seen no slot with key x in the first i + 1 probed groups, and stops
      because the last of them is not overflowed for x's hash, proves x absent. */
  lemma StopProvesAbsent<K, V>(gs: seq<Group15>, es: seq<seq<Element<K, V>>>, si: int, hash: K -> Word, m: map<K, V>,
                               x: K, i: nat)
    requires TableOk(gs, es, si, hash, m) && i < |gs|
    requires NotInProbed(gs, es, x, Position(hash(x), si), i + 1)
    requires IsNotOverflowed(gs[ProbePos(Position(hash(x), si), i, |gs|)], hash(x)) || i + 1 == |gs|
    ensures x !in m
  {
    assert x in m ==> StoredIn(gs, es, x);
  }

  /** None of the first i probed groups holds x. */
  ghost predicate NotInProbed<K, V>(gs: seq<Group15>, es: seq<seq<Element<K, V>>>, x: K, pos0: nat, i: nat)
    requires RowsOk(gs, es) && |gs| >= 1
  {
    forall j: nat, n: nat | j < i && Occ(gs, ProbePos(pos0, j, |gs|), n) ::
      es[ProbePos(pos0, j, |gs|)][n].key != x
  }

  ghost predicate NotInGroup<K, V>(gs: seq<Group15>, es: seq<seq<Element<K, V>>>, x: K, g: nat)
    requires RowsOk(gs, es)
  {
    forall n: nat | Occ(gs, g, n) :: es[g][n].key != x
  }

  /** A match in a group is the entry of x, and a scan without one says x is not in the group. */
  lemma ScanMeansGroup<K, V>(gs: seq<Group15>, es: seq<seq<Element<K, V>>>, si: int, hash: K -> Word, m: map<K, V>,
                             x: K, g: nat)
    requires TableOk(gs, es, si, hash, m) && g < |gs|
    ensures (forall n: nat | n < N && gs[g].slots[n] == ReducedHash(hash(x)) :: es[g][n].key != x) ==>
              NotInGroup(gs, es, x, g)
    ensures forall n: nat | n < N && gs[g].slots[n] == ReducedHash(hash(x)) && es[g][n].key == x ::
              Occ(gs, g, n) && x in m && es[g][n] == Element(x, m[x])
  {
    forall n: nat | n < N && gs[g].slots[n] == ReducedHash(hash(x)) && es[g][n].key == x
      ensures Occ(gs, g, n) && x in m && es[g][n] == Element(x, m[x])
    {
      assert IsCell(gs, g, n);
      assert Occ(gs, g, n) && IsEntry(m, es[g][n]);
    }
    forall n: nat | Occ(gs, g, n) && es[g][n].key == x ensures gs[g].slots[n] == ReducedHash(hash(x)) {
      assert Placed(gs, si, hash, es[g][n].key, g, n);
    }
  }

  /** The first i groups of x's probe sequence have been searched without success. */
  ghost predicate Searched<K, V>(gs: seq<Group15>, es: seq<seq<Element<K, V>>>, x: K, pos0: nat, i: nat) {
    es == [] || (RowsOk(gs, es) && |gs| >= 1 && NotInProbed(gs, es, x, pos0, i))
  }

  /** No slot of the group selected by x's reduced hash holds x. */
  ghost predicate NoMatch<K, V>(g: Group15, es: seq<seq<Element<K, V>>>, pos: nat, x: K, h: Word) {
    forall n: nat | n < N && g.slots[n] == ReducedHash(h) :: pos < |es| && n < |es[pos]| && es[pos][n].key != x
  }

  lemma SearchStart<K, V>(gs: seq<Group15>, es: seq<seq<Element<K, V>>>, si: int, hash: K -> Word, m: map<K, V>, x: K)
    requires Searchable(gs, es, si, hash, m)
    ensures Searched(gs, es, x, Position(hash(x), si), 0)
  {
  }

  /** One more group without a match; if it ends the search, x is absent. */
  lemma SearchStep<K, V>(gs: seq<Group15>, es: seq<seq<Element<K, V>>>, si: int, hash: K -> Word, m: map<K, V>, x: K,
                         i: nat)
    requires Searchable(gs, es, si, hash, m) && i < |gs|
    requires Searched(gs, es, x, Position(hash(x), si), i)
    requires NoMatch(gs[ProbePos(Position(hash(x), si), i, |gs|)], es, ProbePos(Position(hash(x), si), i, |gs|), x,
        hash(x))
    ensures Searched(gs, es, x, Position(hash(x), si), i + 1)
    ensures IsNotOverflowed(gs[ProbePos(Position(hash(x), si), i, |gs|)], hash(x)) || i + 1 == |gs| ==> x !in m
  {
    if es != [] {
      ScanMeansGroup(gs, es, si, hash, m, x, ProbePos(Position(hash(x), si), i, |gs|));
      assert NotInProbed(gs, es, x, Position(hash(x), si), i + 1);
      if IsNotOverflowed(gs[ProbePos(Position(hash(x), si), i, |gs|)], hash(x)) || i + 1 == |gs| {
        StopProvesAbsent(gs, es, si, hash, m, x, i);
      }
    }
  }

  /** A match found by the scan is the stored entry of x. */
  lemma SearchHit<K, V>(gs: seq<Group15>, es: seq<seq<Element<K, V>>>, si: int, hash: K -> Word, m: map<K, V>, x: K,
                        g: nat, n: nat)
    requires Searchable(gs, es, si, hash, m) && g < |gs| && n < N && gs[g].slots[n] == ReducedHash(hash(x))
    ensures g < |es| && n < |es[g]|
    ensures es[g][n].key == x ==> Occ(gs, g, n) && x in m && es[g][n] == Element(x, m[x])
  {
    if es != [] {
      ScanMeansGroup(gs, es, si, hash, m, x, g);
    }
  }

  /** The slots of the first g groups, and the first n of group g. */
  ghost function FirstCells(g: nat, n: nat): (s: set<(nat, nat)>)
    requires n <= N
    ensures |s| == N * g + n
    ensures forall g': nat, n': nat :: (g', n') in s <==> n' < N && (g' < g || (g' == g && n' < n))
    decreases g, n
  {
    if n > 0 then FirstCells(g, n - 1) + {(g, n - 1)}
    else if g > 0 then FirstCells(g - 1, N)
    else {}
  }

  /** With fewer entries than slots, some slot is available. */
  lemma FreeCellExists(gs: seq<Group15>) returns (g: nat, n: nat)
    requires |gs| >= 1 && CellCount(gs) < N * |gs| - 1
    ensures IsCell(gs, g, n) && gs[g].slots[n] == AVAILABLE
  {
    var all := FirstCells(|gs| - 1, N - 1);
    if all <= Cells(gs) {
      SubsetSize(all, Cells(gs));
    }
    var c :| c in all && c !in Cells(gs);
    g, n := c.0, c.1;
  }

  /** The first i groups probed from pos0 have no available slot. */
  ghost predicate FullPrefix(gs: seq<Group15>, pos0: nat, i: nat)
    requires |gs| >= 1
  {
    forall j: nat, n: nat | j < i && n < N :: gs[ProbePos(pos0, j, |gs|)].slots[n] != AVAILABLE
  }

  /** The insertion loop needs no exit test: while every group probed so far is full and
      some slot is free, fewer than all groups have been probed. */
  lemma FullPrefixIsShort(gs: seq<Group15>, si: int, pos0: nat, i: nat)
    requires LayoutOk(gs, si) && i <= |gs|
    requires CellCount(gs) < N * |gs| - 1
    requires FullPrefix(gs, pos0, i)
    ensures i < |gs|
  {
    if i == |gs| {
      var g, n := FreeCellExists(gs);
      var j := ProbeReachesAll(pos0, g, 64 - si);
    }
  }

  /** Marking the next full group of the probe extends the marked prefix and the full prefix. */
  lemma MarkStep(gs: seq<Group15>, gs1: seq<Group15>, pos0: nat, h: Word, i: nat)
    requires |gs| >= 1 && OverflowGrew(gs, gs1) && PrefixMarked(gs1, pos0, h % 8, i) && FullPrefix(gs, pos0, i)
    requires !NonZero(MatchAvailable(gs1[ProbePos(pos0, i, |gs|)]))
    ensures var g := ProbePos(pos0, i, |gs|);
            var gs2 := gs1[g := MarkOverflow(gs1[g], h)];
            OverflowGrew(gs, gs2) && PrefixMarked(gs2, pos0, h % 8, i + 1) && FullPrefix(gs, pos0, i + 1)
  {
    var g := ProbePos(pos0, i, |gs|);
    var gs2 := gs1[g := MarkOverflow(gs1[g], h)];
    assert MatchAvailable(gs1[g]) == MatchAvailable(gs[g]);
    forall j | 0 <= j < i + 1 ensures gs2[ProbePos(pos0, j, |gs|)].overflow[h % 8] {
    }
  }

  /** The overflow bits of gs' are those of gs, and bit ov of the first i groups probed. */
  ghost predicate MarkedExactly(gs: seq<Group15>, gs': seq<Group15>, pos0: nat, ov: nat, i: nat)
    requires |gs| == |gs'| >= 1 && ov < 8
  {
    forall g: nat, b: nat {:trigger gs'[g].overflow[b]} | g < |gs| && b < 8 ::
      gs'[g].overflow[b] <==> gs[g].overflow[b] || (b == ov && ProbedBefore(pos0, i, |gs|, g))
  }

  ghost predicate ProbedBefore(pos0: nat, i: nat, size: nat, g: nat)
    requires size >= 1
  {
    exists j: nat :: j < i && ProbePos(pos0, j, size) == g
  }

  lemma ProbeNothing(gs: seq<Group15>, pos0: nat, ov: nat)
    requires |gs| >= 1 && ov < 8
    ensures OverflowGrew(gs, gs) && PrefixMarked(gs, pos0, ov, 0) && FullPrefix(gs, pos0, 0)
    ensures MarkedExactly(gs, gs, pos0, ov, 0)
  {
  }

  lemma MarkExact(gs: seq<Group15>, gs1: seq<Group15>, pos0: nat, h: Word, i: nat)
    requires |gs| == |gs1| >= 1 && MarkedExactly(gs, gs1, pos0, h % 8, i)
    ensures var g := ProbePos(pos0, i, |gs|);
            MarkedExactly(gs, gs1[g := MarkOverflow(gs1[g], h)], pos0, h % 8, i + 1)
  {
    var g := ProbePos(pos0, i, |gs|);
    var gs2 := gs1[g := MarkOverflow(gs1[g], h)];
    forall g': nat, b: nat | g' < |gs| && b < 8
      ensures gs2[g'].overflow[b] <==> gs[g'].overflow[b] || (b == h % 8 && ProbedBefore(pos0, i + 1, |gs|, g'))
    {
      assert ProbedBefore(pos0, i + 1, |gs|, g') <==> ProbedBefore(pos0, i, |gs|, g') || g' == g by {
        if g' == g { assert ProbePos(pos0, i, |gs|) == g'; }
        if ProbedBefore(pos0, i, |gs|, g') {
          var j: nat :| j < i && ProbePos(pos0, j, |gs|) == g';
          assert j < i + 1 && ProbePos(pos0, j, |gs|) == g';
        }
      }
      assert gs1[g'].overflow[b] <==> gs[g'].overflow[b] || (b == h % 8 && ProbedBefore(pos0, i, |gs|, g'));
    }
  }

  /** The slot taken is the lowest available one of the first probed group that has one; exactly the full
      groups probed before it are marked. */
  ghost predicate TookFirstFree(gs: seq<Group15>, gs': seq<Group15>, pos0: nat, h: Word, g: nat, n: nat) {
    && |gs| == |gs'| >= 1 && g < |gs|
    && NonZero(MatchAvailable(gs[g])) && n == CountrZero(MatchAvailable(gs[g]))
    && exists i: nat ::
        i < |gs| && ProbePos(pos0, i, |gs|) == g && FullPrefix(gs, pos0, i) && MarkedExactly(gs, gs', pos0, h % 8, i)
  }

  lemma FirstFree(gs: seq<Group15>, gs1: seq<Group15>, gs2: seq<Group15>, pos0: nat, h: Word, i: nat, n: nat)
    requires |gs| >= 1 && i < |gs| && OverflowGrew(gs, gs1) && FullPrefix(gs, pos0, i)
    requires MarkedExactly(gs, gs1, pos0, h % 8, i)
    requires var g := ProbePos(pos0, i, |gs|);
             && NonZero(MatchAvailable(gs1[g])) && n == CountrZero(MatchAvailable(gs1[g]))
             && gs2 == gs1[g := Set(gs1[g], n, h)]
    ensures TookFirstFree(gs, gs2, pos0, h, ProbePos(pos0, i, |gs|), n)
  {
    var g := ProbePos(pos0, i, |gs|);
    assert MatchAvailable(gs1[g]) == MatchAvailable(gs[g]);
    assert forall g': nat | g' < |gs| :: gs2[g'].overflow == gs1[g'].overflow;
    assert MarkedExactly(gs, gs2, pos0, h % 8, i);
  }

  lemma MapInsertSize<K, V>(m: map<K, V>, k: K, v: V)
    requires k !in m
    ensures |m[k := v]| == |m| + 1
  {
    assert m[k := v].Keys == m.Keys + {k};
  }

  lemma MapRemoveSize<K, V>(m: map<K, V>, k: K)
    requires k in m
    ensures |m - {k}| == |m| - 1
  {
    assert (m - {k}).Keys == m.Keys - {k};
  }

  /** A freshly initialised group array with its sentinel set is an empty table. */
  lemma FreshTable<K, V>(gs: seq<Group15>, es: seq<seq<Element<K, V>>>, si: int, hash: K -> Word)
    requires 1 <= si <= 63 && |gs| == Size(si) && |gs| >= 2 && RowsOk(gs, es)
    requires forall g | 0 <= g < |gs| - 1 :: gs[g] == Initialized()
    requires gs[|gs| - 1] == SetSentinel(Initialized())
    ensures TableOk(gs, es, si, hash, map[])
    ensures CellCount(gs) == 0
  {
    assert forall g: nat, n: nat :: !Occ(gs, g, n);
    assert Cells(gs) == {};
  }
}

/** Free-slot bookkeeping of the perfect hash table: a permutation of the slots
    and its inverse, split at filled into filled and free slots, and the search
    for an offset that puts a whole bucket on free slots. */
module FphSlots {
  import opened Words
  import opened Wrappers
  import opened FphIndex

  /** random lists all slots, filled ones first; place gives each slot's place in random. */
  datatype SlotTables = SlotTables(random: seq<nat>, place: seq<nat>, filled: nat)

  /** random and place are inverse permutations of [0, m). */
  ghost predicate PermOk(t: SlotTables, m: nat) {
    && |t.random| == |t.place| == m && t.filled <= m
    && (forall i | 0 <= i < m :: t.random[i] < m && t.place[t.random[i]] == i)
    && (forall s | 0 <= s < m :: t.place[s] < m && t.random[t.place[s]] == s)
  }

  predicate IsFilled(t: SlotTables, s: nat) {
    s < |t.place| && t.place[s] < t.filled
  }

  function Swap(xs: seq<nat>, i: nat, j: nat): seq<nat>
    requires i < |xs| && j < |xs|
  {
    xs[i := xs[j]][j := xs[i]]
  }

  /** The two swaps that exchange the slots listed at places i and j of random. */
  function SwapPlaces(t: SlotTables, m: nat, i: nat, j: nat): SlotTables
    requires PermOk(t, m) && i < m && j < m
  {
    var random := Swap(t.random, i, j);
    t.(random := random, place := Swap(t.place, random[i], random[j]))
  }

  lemma SwapPlacesOk(t: SlotTables, m: nat, i: nat, j: nat)
    requires PermOk(t, m) && i < m && j < m
    ensures var t' := SwapPlaces(t, m, i, j);
            && PermOk(t', m) && t'.filled == t.filled
            && t'.random[i] == t.random[j] && t'.random[j] == t.random[i]
            && forall s | 0 <= s < m ::
                t'.place[s] == if t.place[s] == i then j else if t.place[s] == j then i else t.place[s]
  {
  }

  /** Moves free slot pos across the border to the filled side. */
  function Fill(t: SlotTables, m: nat, pos: nat): SlotTables
    requires PermOk(t, m) && pos < m && !IsFilled(t, pos)
  {
    SwapPlaces(t, m, t.filled, t.place[pos]).(filled := t.filled + 1)
  }

  /** Moves filled slot pos across the border to the free side. */
  function Unfill(t: SlotTables, m: nat, pos: nat): SlotTables
    requires PermOk(t, m) && IsFilled(t, pos)
  {
    SwapPlaces(t, m, t.filled - 1, t.place[pos]).(filled := t.filled - 1)
  }

  lemma FillOk(t: SlotTables, m: nat, pos: nat)
    requires PermOk(t, m) && pos < m && !IsFilled(t, pos)
    ensures PermOk(Fill(t, m, pos), m) && Fill(t, m, pos).filled == t.filled + 1
    ensures forall s: nat :: IsFilled(Fill(t, m, pos), s) <==> IsFilled(t, s) || s == pos
  {
    SwapPlacesOk(t, m, t.filled, t.place[pos]);
  }

  lemma UnfillOk(t: SlotTables, m: nat, pos: nat)
    requires PermOk(t, m) && IsFilled(t, pos)
    ensures PermOk(Unfill(t, m, pos), m) && Unfill(t, m, pos).filled == t.filled - 1
    ensures forall s: nat :: IsFilled(Unfill(t, m, pos), s) <==> IsFilled(t, s) && s != pos
  {
    SwapPlacesOk(t, m, t.filled - 1, t.place[pos]);
  }

  /** Filling a free slot and emptying it again frees exactly what was free before. */
  lemma UnfillUndoesFill(t: SlotTables, m: nat, pos: nat)
    requires PermOk(t, m) && pos < m && !IsFilled(t, pos)
    ensures IsFilled(Fill(t, m, pos), pos)
    ensures forall s: nat :: IsFilled(Unfill(Fill(t, m, pos), m, pos), s) <==> IsFilled(t, s)
  {
    FillOk(t, m, pos);
    UnfillOk(Fill(t, m, pos), m, pos);
  }

  ghost function FilledSet(t: SlotTables): set<nat> {
    set s: nat | s < |t.place| && IsFilled(t, s)
  }

  /** The filled count is the number of filled slots. */
  lemma FilledCount(t: SlotTables, m: nat)
    requires PermOk(t, m)
    ensures |FilledSet(t)| == t.filled
  {
    FirstPlacesCount(t, m, t.filled);
    assert FilledSet(t) == FirstPlaces(t, t.filled) by {
      forall s: nat | s in FilledSet(t) ensures s in FirstPlaces(t, t.filled) {
        assert t.random[t.place[s]] == s;
      }
    }
  }

  ghost function FirstPlaces(t: SlotTables, k: nat): set<nat>
    requires k <= |t.random|
  {
    set i | 0 <= i < k :: t.random[i]
  }

  lemma {:induction false} FirstPlacesCount(t: SlotTables, m: nat, k: nat)
    requires PermOk(t, m) && k <= m
    ensures |FirstPlaces(t, k)| == k
  {
    if k == 0 {
    } else {
      FirstPlacesCount(t, m, k - 1);
      assert FirstPlaces(t, k) == FirstPlaces(t, k - 1) + {t.random[k - 1]};
      assert t.random[k - 1] !in FirstPlaces(t, k - 1) by {
        forall i | 0 <= i < k - 1 ensures t.random[i] != t.random[k - 1] {
          assert t.place[t.random[i]] == i && t.place[t.random[k - 1]] == k - 1;
        }
      }
    }
  }

  /** Where a key with this hash goes under an offset. */
  function SlotOf(hash: Word, offset: nat, bits: nat): (s: nat)
    requires bits <= 64
    ensures s < Pow2(bits)
  {
    MapToIndex(AddWord(hash, ReverseMap(offset, bits)), bits)
  }

  lemma SlotOfShift(hash: Word, offset: nat, bits: nat)
    requires bits <= 64 && offset < Pow2(bits)
    ensures SlotOf(hash, offset, bits) == (MapToIndex(hash, bits) + offset) % Pow2(bits)
  {
    hide Pow2, MapToIndex;
    OffsetIsCyclicShift(hash, offset, bits);
    var m, x := Pow2(bits), MapToIndex(hash, bits) + offset;
    ModUnique(x, m, if x < m then 0 else 1, if x < m then x else x - m);
  }

  /** No two hashes of the pattern share a base slot. */
  ghost predicate DistinctSlots(pattern: seq<Word>, bits: nat)
    requires bits <= 64
  {
    forall i, j | 0 <= i < j < |pattern| :: MapToIndex(pattern[i], bits) != MapToIndex(pattern[j], bits)
  }

  /** An offset keeps distinct base slots distinct, and is determined by where it puts one hash. */
  lemma ShiftInjective(h: Word, h': Word, o: nat, o': nat, bits: nat)
    requires bits <= 64 && o < Pow2(bits) && o' < Pow2(bits)
    ensures SlotOf(h, o, bits) == SlotOf(h', o, bits) <==> MapToIndex(h, bits) == MapToIndex(h', bits)
    ensures SlotOf(h, o, bits) == SlotOf(h, o', bits) <==> o == o'
  {
    hide Pow2, MapToIndex, AddWord, ReverseMap;
    OffsetIsCyclicShift(h, o, bits);
    OffsetIsCyclicShift(h', o, bits);
    OffsetIsCyclicShift(h, o', bits);
  }

  /** Every hash of the pattern lands on a free slot. */
  predicate Fits(t: SlotTables, pattern: seq<Word>, offset: nat, bits: nat)
    requires bits <= 64
  {
    forall i | 0 <= i < |pattern| :: !IsFilled(t, SlotOf(pattern[i], offset, bits))
  }

  /** The offset that puts a hash with base slot b on slot s. */
  function OffsetTo(s: nat, b: nat, m: nat): nat
    requires s < m && b < m
  {
    BitAnd(m + s - b, m - 1)
  }

  lemma OffsetToHits(s: nat, h: Word, bits: nat)
    requires bits <= 64 && s < Pow2(bits)
    ensures OffsetTo(s, MapToIndex(h, bits), Pow2(bits)) < Pow2(bits)
    ensures SlotOf(h, OffsetTo(s, MapToIndex(h, bits), Pow2(bits)), bits) == s
  {
    hide Pow2, MapToIndex, BitAnd;
    var m, b := Pow2(bits), MapToIndex(h, bits);
    MaskIsMod(m + s - b, bits);
    ModUnique(m + s - b, m, if s < b then 0 else 1, if s < b then m + s - b else s - b);
    OffsetIsCyclicShift(h, OffsetTo(s, b, m), bits);
  }

  /** Tries the offsets that put the first hash on each free slot in turn. It finds an offset
      that fits if and only if there is one. */
  method SearchOffset(t: SlotTables, pattern: seq<Word>, bits: nat) returns (r: Option<nat>)
    requires bits <= 64 && PermOk(t, Pow2(bits)) && |pattern| > 0
    ensures r.Some? ==> r.value < Pow2(bits) && Fits(t, pattern, r.value, bits)
    ensures r.None? ==> forall o: nat | o < Pow2(bits) :: !Fits(t, pattern, o, bits)
  {
    ghost var m := Pow2(bits);
    var searchPos := t.filled;
    while searchPos < |t.random|
      invariant t.filled <= searchPos <= m
      invariant forall o: nat | o < m && Fits(t, pattern, o, bits) :: t.place[SlotOf(pattern[0], o, bits)] >= searchPos
    {
      OffsetToHits(t.random[searchPos], pattern[0], bits);
      var offset := OffsetTo(t.random[searchPos], MapToIndex(pattern[0], bits), Pow2(bits));
      if Fits(t, pattern, offset, bits) {
        return Some(offset);
      }
      forall o: nat | o < m && Fits(t, pattern, o, bits) ensures t.place[SlotOf(pattern[0], o, bits)] >= searchPos + 1 {
        ShiftInjective(pattern[0], pattern[0], o, offset, bits);
      }
      searchPos := searchPos + 1;
    }
    r := None;
  }

  ghost predicate InPattern(pattern: seq<Word>, offset: nat, bits: nat, n: nat, s: nat)
    requires bits <= 64 && n <= |pattern|
  {
    exists i :: 0 <= i < n && SlotOf(pattern[i], offset, bits) == s
  }

  /** Marks the slots of a fitting pattern filled. */
  method FillPattern(t: SlotTables, pattern: seq<Word>, offset: nat, bits: nat) returns (t': SlotTables)
    requires bits <= 64 && PermOk(t, Pow2(bits)) && offset < Pow2(bits)
    requires Fits(t, pattern, offset, bits) && DistinctSlots(pattern, bits)
    ensures PermOk(t', Pow2(bits)) && t'.filled == t.filled + |pattern|
    ensures forall s: nat :: IsFilled(t', s) <==> IsFilled(t, s) || InPattern(pattern, offset, bits, |pattern|, s)
  {
    t' := t;
    var i := 0;
    while i < |pattern|
      invariant 0 <= i <= |pattern|
      invariant PermOk(t', Pow2(bits)) && t'.filled == t.filled + i
      invariant forall s: nat :: IsFilled(t', s) <==> IsFilled(t, s) || InPattern(pattern, offset, bits, i, s)
    {
      var pos := SlotOf(pattern[i], offset, bits);
      assert !InPattern(pattern, offset, bits, i, pos) by {
        forall j | 0 <= j < i ensures SlotOf(pattern[j], offset, bits) != pos {
          ShiftInjective(pattern[j], pattern[i], offset, offset, bits);
        }
      }
      FillOk(t', Pow2(bits), pos);
      ghost var before := t';
      t' := Fill(t', Pow2(bits), pos);
      forall s: nat ensures IsFilled(t', s) <==> IsFilled(t, s) || InPattern(pattern, offset, bits, i + 1, s) {
        assert InPattern(pattern, offset, bits, i + 1, s) <==> InPattern(pattern, offset, bits, i, s) || s == pos;
      }
      i := i + 1;
    }
  }

  /** The pattern fits at the offset, and t' is t with its slots filled. */
  ghost predicate Placed(t: SlotTables, pattern: seq<Word>, offset: nat, bits: nat, t': SlotTables)
    requires bits <= 64
  {
    && offset < Pow2(bits)
    && DistinctSlots(pattern, bits) && Fits(t, pattern, offset, bits)
    && PermOk(t', Pow2(bits)) && t'.filled == t.filled + |pattern|
    && forall s: nat :: IsFilled(t', s) <==> IsFilled(t, s) || InPattern(pattern, offset, bits, |pattern|, s)
  }

  /** No offset puts the pattern on free slots. */
  ghost predicate NoOffsetFits(t: SlotTables, pattern: seq<Word>, bits: nat)
    requires bits <= 64
  {
    forall o: nat | o < Pow2(bits) :: !Fits(t, pattern, o, bits)
  }

  /** Searches an offset for a pattern without self-collisions and fills its slots. */
  method PlacePattern(t: SlotTables, pattern: seq<Word>, bits: nat) returns (r: Option<nat>, t': SlotTables)
    requires bits <= 64 && PermOk(t, Pow2(bits)) && |pattern| > 0 && DistinctSlots(pattern, bits)
    ensures r.Some? ==> Placed(t, pattern, r.value, bits, t')
    ensures r.None? ==> t' == t && NoOffsetFits(t, pattern, bits)
  {
    r := SearchOffset(t, pattern, bits);
    t' := t;
    if r.Some? {
      t' := FillPattern(t, pattern, r.value, bits);
    }
  }

  /** Whether all base slots of the pattern are different. The scratch table is all false before and after. */
  method TestHashVecSelfCollision(pattern: seq<Word>, bits: nat, testTable: seq<bool>)
    returns (pass: bool, testTable': seq<bool>)
    requires bits <= 64 && |testTable| == Pow2(bits) && forall s | 0 <= s < |testTable| :: !testTable[s]
    ensures pass <==> DistinctSlots(pattern, bits)
    ensures testTable' == testTable
  {
    testTable' := testTable;
    pass := true;
    var tested: seq<nat> := [];
    var i := 0;
    while i < |pattern|
      invariant 0 <= i <= |pattern| && |tested| == i && |testTable'| == |testTable|
      invariant forall j | 0 <= j < i :: tested[j] == MapToIndex(pattern[j], bits)
      invariant forall s | 0 <= s < |testTable'| :: testTable'[s] <==> s in tested
      invariant DistinctSlots(pattern[..i], bits)
    {
      var pos := MapToIndex(pattern[i], bits);
      if testTable'[pos] {
        pass := false;
        var j :| 0 <= j < |tested| && tested[j] == pos;
        assert MapToIndex(pattern[j], bits) == MapToIndex(pattern[i], bits);
        break;
      }
      testTable' := testTable'[pos := true];
      tested := tested + [pos];
      i := i + 1;
    }
    assert pass ==> pattern[..i] == pattern;
    var k := 0;
    while k < |tested|
      invariant 0 <= k <= |tested| && |testTable'| == |testTable|
      invariant forall s | 0 <= s < |testTable'| :: testTable'[s] ==> s in tested[k..]
      invariant forall j | 0 <= j < |tested| :: tested[j] < |testTable|
    {
      testTable' := testTable'[tested[k] := false];
      k := k + 1;
    }
  }
}

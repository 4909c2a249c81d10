/** Counting sort that outputs the order as an array of indices. */
module CountSort {
  import opened FiniteSets

  /** Number of indices below n whose key is k. */
  ghost function CountOf(keys: seq<nat>, n: nat, k: nat): nat
    requires n <= |keys|
  {
    if n == 0 then 0 else CountOf(keys, n - 1, k) + if keys[n - 1] == k then 1 else 0
  }

  /** Number of indices below n whose key is less than k. */
  ghost function CountBelow(keys: seq<nat>, n: nat, k: nat): nat
    requires n <= |keys|
  {
    if n == 0 then 0 else CountBelow(keys, n - 1, k) + if keys[n - 1] < k then 1 else 0
  }

  /** Place of index i in ascending order, equal keys in index order. */
  ghost function Rank(keys: seq<nat>, i: nat): nat
    requires i < |keys|
  {
    CountBelow(keys, |keys|, keys[i]) + CountOf(keys, i, keys[i])
  }

  lemma {:induction false} CountsAddUp(keys: seq<nat>, n: nat, k: nat)
    requires n <= |keys|
    ensures CountBelow(keys, n, k + 1) == CountBelow(keys, n, k) + CountOf(keys, n, k)
    ensures CountBelow(keys, n, k + 1) <= n
  {
    if n == 0 {
    } else {
      CountsAddUp(keys, n - 1, k);
    }
  }

  lemma {:induction false} CountBelowMonotone(keys: seq<nat>, n: nat, k: nat, k': nat)
    requires n <= |keys| && k <= k'
    ensures CountBelow(keys, n, k) <= CountBelow(keys, n, k')
  {
    if n == 0 {
    } else {
      CountBelowMonotone(keys, n - 1, k, k');
    }
  }

  lemma {:induction false} CountOfMonotone(keys: seq<nat>, i: nat, j: nat, k: nat)
    requires i <= j <= |keys|
    ensures CountOf(keys, i, k) <= CountOf(keys, j, k)
    ensures i < j && keys[i] == k ==> CountOf(keys, i, k) < CountOf(keys, j, k)
  {
    if i >= j {
    } else {
      CountOfMonotone(keys, i, j - 1, k);
    }
  }

  /** Ranks are below n, and ordered by key and then by index; so they are all different. */
  lemma RankOrder(keys: seq<nat>, i: nat, j: nat)
    requires i < |keys| && j < |keys|
    ensures Rank(keys, i) < |keys|
    ensures keys[i] < keys[j] || (keys[i] == keys[j] && i < j) ==> Rank(keys, i) < Rank(keys, j)
  {
    CountOfMonotone(keys, i, |keys|, keys[i]);
    CountsAddUp(keys, |keys|, keys[i]);
    if keys[i] < keys[j] {
      CountBelowMonotone(keys, |keys|, keys[i] + 1, keys[j]);
    } else if keys[i] == keys[j] && i < j {
      CountOfMonotone(keys, i, j, keys[i]);
    }
  }

  /** The place where the sort puts index i. */
  ghost function Dest(keys: seq<nat>, i: nat, descend: bool): nat
    requires i < |keys|
  {
    RankOrder(keys, i, i);
    if descend then |keys| - Rank(keys, i) - 1 else Rank(keys, i)
  }

  /** order lists every index below |keys| exactly once. */
  ghost predicate IsOrder(order: seq<nat>, n: nat) {
    && |order| == n
    && (forall p | 0 <= p < n :: order[p] < n)
    && (forall p, q | 0 <= p < q < n :: order[p] != order[q])
    && (forall i: nat | i < n :: i in order)
  }

  /** Sorted by key; among equal keys by index, in the same direction as the keys. */
  ghost predicate IsSorted(order: seq<nat>, keys: seq<nat>, descend: bool)
    requires IsOrder(order, |keys|)
  {
    forall p, q | 0 <= p < q < |order| ::
      var a, b := order[p], order[q];
      if descend then keys[a] > keys[b] || (keys[a] == keys[b] && a > b)
      else keys[a] < keys[b] || (keys[a] == keys[b] && a < b)
  }

  /** An array with every index at its place is the sorted order. */
  lemma PlacedMeansSorted(order: seq<nat>, keys: seq<nat>, descend: bool)
    requires |order| == |keys|
    requires forall i: nat | i < |keys| :: Dest(keys, i, descend) < |order| && order[Dest(keys, i, descend)] == i
    ensures IsOrder(order, |keys|) && IsSorted(order, keys, descend)
  {
    var n := |keys|;
    var places := set i: nat | i < n :: Dest(keys, i, descend);
    PlacesCount(keys, n, descend);
    assert places <= Below(n);
    SubsetSameSize(places, Below(n));
    forall p: nat | p < n ensures order[p] < n && Dest(keys, order[p], descend) == p {
      assert p in places;
      var i: nat :| i < n && Dest(keys, i, descend) == p;
    }
    forall p, q | 0 <= p < q < n ensures order[p] != order[q] {
      assert Dest(keys, order[p], descend) == p && Dest(keys, order[q], descend) == q;
    }
    forall i: nat | i < n ensures i in order {
      assert order[Dest(keys, i, descend)] == i;
    }
    forall p, q | 0 <= p < q < n
      ensures var a, b := order[p], order[q];
              if descend then keys[a] > keys[b] || (keys[a] == keys[b] && a > b)
              else keys[a] < keys[b] || (keys[a] == keys[b] && a < b)
    {
      RankOrder(keys, order[p], order[q]);
      RankOrder(keys, order[q], order[p]);
    }
  }

  lemma {:induction false} PlacesCount(keys: seq<nat>, n: nat, descend: bool)
    requires n <= |keys|
    ensures |set i: nat | i < n :: Dest(keys, i, descend)| == n
  {
    if n == 0 {
    } else {
      PlacesCount(keys, n - 1, descend);
      var before := set i: nat | i < n - 1 :: Dest(keys, i, descend);
      forall i: nat | i < n - 1 ensures Dest(keys, i, descend) != Dest(keys, n - 1, descend) {
        RankOrder(keys, i, n - 1);
        RankOrder(keys, n - 1, i);
      }
      assert (set i: nat | i < n :: Dest(keys, i, descend)) == before + {Dest(keys, n - 1, descend)};
    }
  }

  /** Counts, sums up, and writes every index to its place, last index first. */
  method CountSortOutIndex(keys: seq<nat>, maxKey: nat, descend: bool, out: array<nat>)
    requires out.Length == |keys|
    requires forall i | 0 <= i < |keys| :: keys[i] <= maxKey
    modifies out
    ensures IsOrder(out[..], |keys|) && IsSorted(out[..], keys, descend)
  {
    var count := new nat[maxKey + 1](_ => 0);
    var i := 0;
    while i < |keys|
      invariant 0 <= i <= |keys|
      invariant forall k | 0 <= k <= maxKey :: count[k] == CountOf(keys, i, k)
    {
      count[keys[i]] := count[keys[i]] + 1;
      i := i + 1;
    }
    SumUp(count, keys, maxKey);
    i := |keys|;
    while i > 0
      invariant 0 <= i <= |keys|
      invariant forall k | 0 <= k <= maxKey :: count[k] == CountBelow(keys, |keys|, k) + CountOf(keys, i, k)
      invariant forall j: nat | i <= j < |keys| ::
              Dest(keys, j, descend) < out.Length && out[Dest(keys, j, descend)] == j
    {
      i := i - 1;
      var k := keys[i];
      count[k] := count[k] - 1;
      assert count[k] == Rank(keys, i);
      RankOrder(keys, i, i);
      forall j: nat | i < j < |keys| ensures Dest(keys, j, descend) != Dest(keys, i, descend) {
        RankOrder(keys, i, j);
        RankOrder(keys, j, i);
      }
      var dest := if descend then |keys| - count[k] - 1 else count[k];
      out[dest] := i;
    }
    PlacedMeansSorted(out[..], keys, descend);
  }

  /** Prefix sums turn the counts of each key into the counts of keys not above it. */
  method SumUp(count: array<nat>, keys: seq<nat>, maxKey: nat)
    requires count.Length == maxKey + 1
    requires forall k | 0 <= k <= maxKey :: count[k] == CountOf(keys, |keys|, k)
    modifies count
    ensures forall k | 0 <= k <= maxKey :: count[k] == CountBelow(keys, |keys|, k) + CountOf(keys, |keys|, k)
  {
    CountBelowZero(keys, |keys|);
    var i := 1;
    while i <= maxKey
      invariant 1 <= i <= maxKey + 1
      invariant forall k | 0 <= k < i :: count[k] == CountBelow(keys, |keys|, k) + CountOf(keys, |keys|, k)
      invariant forall k | i <= k <= maxKey :: count[k] == CountOf(keys, |keys|, k)
    {
      CountsAddUp(keys, |keys|, i - 1);
      count[i] := count[i] + count[i - 1];
      i := i + 1;
    }
  }

  lemma {:induction false} CountBelowZero(keys: seq<nat>, n: nat)
    requires n <= |keys|
    ensures CountBelow(keys, n, 0) == 0
  {
    if n == 0 {
    } else {
      CountBelowZero(keys, n - 1);
    }
  }
}

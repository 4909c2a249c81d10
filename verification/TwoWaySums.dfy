/** The sum of the values of a map, which does not depend on the order of
    summation, and the sum of an entry list. */
module TwoWaySums {
  import opened FiniteSets
  import opened Words
  import opened TwoWayModel
  import opened TwoWayRefine

  ghost function MapSum(m: map<int, Word>): nat {
    if |m| == 0 then 0
    else
      var k := Pick(m.Keys);
      m[k] + MapSum(m - {k})
  }

  /** Any key may be summed first. */
  lemma {:induction false} MapSumAt(m: map<int, Word>, k: int)
    requires k in m
    ensures MapSum(m) == m[k] + MapSum(m - {k})
    decreases |m|
  {
    var k' := Pick(m.Keys);
    if k' != k {
      MapMinusSize(m, k);
      MapMinusSize(m, k');
      MapSumAt(m - {k'}, k);
      MapSumAt(m - {k}, k');
      assert m - {k'} - {k} == m - {k} - {k'};
    }
  }

  function EntrySum(es: seq<Entry>): nat {
    if es == [] then 0 else es[0].value + EntrySum(es[1..])
  }

  lemma {:induction false} EntrySumIsMapSum(es: seq<Entry>)
    requires DistinctKeys(es)
    ensures EntrySum(es) == MapSum(ToMap(es))
  {
    if es == [] {
    } else {
      assert DistinctKeys(es[1..]);
      EntrySumIsMapSum(es[1..]);
      ToMapKeys(es);
      ToMapKeys(es[1..]);
      assert ToMap(es) - {es[0].key} == ToMap(es[1..]);
      MapSumAt(ToMap(es), es[0].key);
    }
  }

  /** The entries of a table sum to the values of its map. */
  lemma TableSum(p: Params, t: SlotTable, m: map<int, Word>)
    requires Represents(p, t, m) && TableOk(p, t)
    ensures EntrySum(EntriesFrom(p, t, 0)) == MapSum(m)
  {
    EntriesAreMap(p, t, m);
    EntrySumIsMapSum(EntriesFrom(p, t, 0));
  }
}

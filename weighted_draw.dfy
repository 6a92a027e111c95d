/** `weighted_random_by_dct`: choosing a key of a dictionary by walking
    its items in order with a running total of their values. */
module WeightedDraw {
  import opened Wrappers

  /** The running `total` once item `i` has been added. */
  function RunningTotal<K>(items: seq<(K, real)>, i: int): real
    requires 0 <= i < |items|
  {
    (if i == 0 then 0.0 else RunningTotal(items, i - 1)) + items[i].1
  }

  /** The running `total` before item `i` is added. */
  function TotalBefore<K>(items: seq<(K, real)>, i: int): real
    requires 0 <= i < |items|
  {
    if i == 0 then 0.0 else RunningTotal(items, i - 1)
  }

  /** Item `i` is the first whose running total reaches `rand`. */
  predicate FirstReaching<K>(items: seq<(K, real)>, rand: real, i: int) {
    && 0 <= i < |items|
    && rand <= RunningTotal(items, i)
    && forall j :: 0 <= j < i ==> RunningTotal(items, j) < rand
  }

  /** `weighted_random_by_dct` over the dictionary's items in order, with
      the value of `random.random()` passed in as `rand`: the first key
      whose running total reaches `rand`, or None (the function falls off
      its end) when no total does. */
  method WeightedRandom<K>(items: seq<(K, real)>, rand: real) returns (k: Option<K>)
    ensures k == None <==> forall i :: 0 <= i < |items| ==> RunningTotal(items, i) < rand
    ensures k != None ==> exists i :: FirstReaching(items, rand, i) && items[i].0 == k.value
  {
    var total := 0.0;
    var i := 0;
    while i < |items|
      invariant 0 <= i <= |items|
      invariant i < |items| ==> total == TotalBefore(items, i)
      invariant forall j :: 0 <= j < i ==> RunningTotal(items, j) < rand
    {
      total := total + items[i].1;
      if rand <= total {
        assert FirstReaching(items, rand, i);
        return Some(items[i].0);
      }
      i := i + 1;
    }
    return None;
  }

  /** With no negative value the running totals never decrease. */
  lemma {:induction false} RunningTotalMonotone<K>(items: seq<(K, real)>, i: int, j: int)
    requires forall k :: 0 <= k < |items| ==> items[k].1 >= 0.0
    requires 0 <= i <= j < |items|
    ensures RunningTotal(items, i) <= RunningTotal(items, j)
    decreases j
  {
    if i < j {
      RunningTotalMonotone(items, i, j - 1);
    }
  }

  /** When the running total before item `i` is below `rand` and the
      one through it reaches `rand`, no earlier total reaches it either. */
  lemma NoEarlierReach<K>(items: seq<(K, real)>, rand: real, i: int)
    requires forall k :: 0 <= k < |items| ==> items[k].1 >= 0.0
    requires 0 <= i < |items| && TotalBefore(items, i) < rand <= RunningTotal(items, i)
    ensures FirstReaching(items, rand, i)
  {
    forall j | 0 <= j < i
      ensures RunningTotal(items, j) < rand
    {
      RunningTotalMonotone(items, j, i - 1);
    }
  }

  /** With no negative value and a positive `rand`, item `i` is drawn
      exactly when `rand` falls into its slice of the running totals, a
      slice as wide as the item's own value. */
  lemma DrawnSlice<K>(items: seq<(K, real)>, rand: real, i: int)
    requires forall k :: 0 <= k < |items| ==> items[k].1 >= 0.0
    requires 0.0 < rand && 0 <= i < |items|
    ensures FirstReaching(items, rand, i) <==> TotalBefore(items, i) < rand <= RunningTotal(items, i)
    ensures RunningTotal(items, i) - TotalBefore(items, i) == items[i].1
  {
    if FirstReaching(items, rand, i) && i > 0 {
      assert RunningTotal(items, i - 1) < rand;
    }
    if TotalBefore(items, i) < rand <= RunningTotal(items, i) {
      NoEarlierReach(items, rand, i);
    }
  }
}

/**
  Dividing a catalogue target among buckets: proportional quotas, then one at a
  time down or up until the target is met exactly.
 */
module CatalogueQuotas {
  import opened Options

  type Key = string

  predicate Distinct(keys: seq<Key>) { forall i, j | 0 <= i < j < |keys| :: keys[i] != keys[j] }

  predicate Over<V>(keys: seq<Key>, m: map<Key, V>) { forall k | k in keys :: k in m }

  function Sum(keys: seq<Key>, m: map<Key, int>): int
    requires Over(keys, m)
  {
    if keys == [] then 0 else m[keys[0]] + Sum(keys[1..], m)
  }

  lemma {:induction false} SumUpdates(keys: seq<Key>, m: map<Key, int>, key: Key, v: int)
    requires Over(keys, m) && Distinct(keys) && key in m
    ensures Sum(keys, m[key := v]) == Sum(keys, m) + if key in keys then v - m[key] else 0
    decreases |keys|
  {
    if keys != [] {
      SumUpdates(keys[1..], m, key, v);
      assert key in keys <==> key == keys[0] || key in keys[1..];
      assert key == keys[0] ==> key !in keys[1..];
    }
  }

  lemma {:induction false} SumMonotone(keys: seq<Key>, a: map<Key, int>, b: map<Key, int>)
    requires Over(keys, a) && Over(keys, b) && forall k | k in keys :: a[k] <= b[k]
    ensures Sum(keys, a) <= Sum(keys, b)
    ensures Sum(keys, a) == Sum(keys, b) ==> forall k | k in keys :: a[k] == b[k]
    decreases |keys|
  {
    if keys != [] {
      SumMonotone(keys[1..], a, b);
    }
  }

  lemma {:induction false} SumOfOnes(keys: seq<Key>, m: map<Key, int>)
    requires Over(keys, m) && forall k | k in keys :: m[k] == 1
    ensures Sum(keys, m) == |keys|
    decreases |keys|
  {
    if keys != [] {
      SumOfOnes(keys[1..], m);
    }
  }

  /** Half to even, as the language rounds. */
  function RoundHalfEven(x: real): int {
    var below := x.Floor;
    var rest := x - below as real;
    if rest < 0.5 then below
    else if 0.5 < rest then below + 1
    else if below % 2 == 0 then below else below + 1
  }

  /** The first share of a bucket. */
  function Share(target: nat, weight: real, total: real, size: int): (q: int)
    requires 0.0 < total && 1 <= size
    ensures 1 <= q <= size && (2 <= size ==> 2 <= q)
  {
    var minimum := if 2 <= size then 2 else 1;
    var proportional := RoundHalfEven(target as real * weight / total);
    var q := if minimum < proportional then proportional else minimum;
    if size < q then size else q
  }

  /**
    A share raised above its minimum is at most half a candidate too many; one
    short of its bucket, at most half too few.
   */
  lemma ShareIsProportional(target: nat, weight: real, total: real, size: int)
    requires 0.0 < total && 1 <= size
    ensures var q := Share(target, weight, total, size);
      var exact := target as real * weight / total;
      && ((if 2 <= size then 2 else 1) < q ==> q as real - exact <= 0.5)
      && (q < size ==> exact - q as real <= 0.5)
  {
    RoundsToNearest(target as real * weight / total);
    hide RoundHalfEven;
  }

  /** Rounding goes to the nearest whole number, and from halfway to the even one. */
  lemma RoundsToNearest(x: real)
    ensures -0.5 <= RoundHalfEven(x) as real - x <= 0.5
    ensures RoundHalfEven(x) as real - x == 0.5 || x - RoundHalfEven(x) as real == 0.5 ==>
              exists half :: RoundHalfEven(x) == 2 * half
  {
    var r := RoundHalfEven(x);
    assert r % 2 == 0 ==> r == 2 * (r / 2);
  }

  /** The first key with the largest quota among the reducible ones. */
  method LargestReducible(keys: seq<Key>, quotas: map<Key, int>) returns (key: Option<Key>)
    requires Over(keys, quotas)
    ensures key.None? <==> forall k | k in keys :: quotas[k] <= 1
    ensures key.Some? ==> key.value in keys && 1 < quotas[key.value] && forall k | k in keys ::
              quotas[k] <= quotas[key.value]
  {
    key := None;
    var i := 0;
    while i < |keys|
      invariant 0 <= i <= |keys|
      invariant key.None? ==> forall j | 0 <= j < i :: quotas[keys[j]] <= 1
      invariant key.Some? ==> key.value in keys && 1 < quotas[key.value] && forall j | 0 <= j < i ::
                  quotas[keys[j]] <= quotas[key.value]
    {
      if 1 < quotas[keys[i]] && (key.None? || quotas[key.value] < quotas[keys[i]]) {
        key := Some(keys[i]);
      }
      i := i + 1;
    }
  }

  /** The first key with the largest weight among those with room. */
  method HeaviestExpandable(keys: seq<Key>, quotas: map<Key, int>, sizes: map<Key, int>, weights: map<Key, real>)
    returns (key: Option<Key>)
    requires Over(keys, quotas) && Over(keys, sizes) && Over(keys, weights)
    ensures key.None? <==> forall k | k in keys :: sizes[k] <= quotas[k]
    ensures key.Some? ==>
              && key.value in keys && quotas[key.value] < sizes[key.value]
              && forall k | k in keys && quotas[k] < sizes[k] :: weights[k] <= weights[key.value]
  {
    key := None;
    var i := 0;
    while i < |keys|
      invariant 0 <= i <= |keys|
      invariant key.None? ==> forall j | 0 <= j < i :: sizes[keys[j]] <= quotas[keys[j]]
      invariant key.Some? ==>
                  && key.value in keys && quotas[key.value] < sizes[key.value]
                  && forall j | 0 <= j < i && quotas[keys[j]] < sizes[keys[j]] :: weights[keys[j]] <= weights[key.value]
    {
      if quotas[keys[i]] < sizes[keys[i]] && (key.None? || weights[key.value] < weights[keys[i]]) {
        key := Some(keys[i]);
      }
      i := i + 1;
    }
  }

  /** Whatever was taken was taken from a largest quota: a reduced one is within one of every other. */
  predicate Levelled(keys: seq<Key>, before: map<Key, int>, after: map<Key, int>)
    requires Over(keys, before) && Over(keys, after)
  {
    forall a, b | a in keys && b in keys && after[a] < before[a] :: after[b] <= after[a] + 1
  }

  predicate Between(keys: seq<Key>, low: map<Key, int>, high: map<Key, int>)
    requires Over(keys, low) && Over(keys, high)
  {
    forall k | k in keys :: low[k] <= high[k]
  }

  predicate Positive(keys: seq<Key>, m: map<Key, int>)
    requires Over(keys, m)
  {
    forall k | k in keys :: 1 <= m[k]
  }

  /** Take from the largest quota until the target is met or every quota is one. */
  method Reduce(keys: seq<Key>, quotas: map<Key, int>, target: int) returns (reduced: map<Key, int>)
    requires Distinct(keys) && Over(keys, quotas) && Positive(keys, quotas)
    ensures Over(keys, reduced) && Positive(keys, reduced) && Between(keys, reduced, quotas)
    ensures Levelled(keys, quotas, reduced)
    ensures Sum(keys, quotas) <= target ==> reduced == quotas
    ensures target < Sum(keys, quotas) && |keys| <= target ==> Sum(keys, reduced) == target
    ensures target < |keys| ==> forall k | k in keys :: reduced[k] == 1
  {
    reduced := quotas;
    var shared := Sum(keys, quotas);
    AtLeastOnes(keys, quotas);
    while shared > target
      invariant Over(keys, reduced) && shared == Sum(keys, reduced)
      invariant Positive(keys, reduced) && Between(keys, reduced, quotas) && Levelled(keys, quotas, reduced)
      invariant Sum(keys, quotas) <= target ==> reduced == quotas
      invariant target < Sum(keys, quotas) ==> target <= shared
      decreases shared - target
    {
      var key := LargestReducible(keys, reduced);
      if key.None? {
        SumOfOnes(keys, reduced);
        return;
      }
      SumUpdates(keys, reduced, key.value, reduced[key.value] - 1);
      reduced := reduced[key.value := reduced[key.value] - 1];
      shared := shared - 1;
    }
    AtLeastOnes(keys, reduced);
  }

  lemma {:induction false} AtLeastOnes(keys: seq<Key>, m: map<Key, int>)
    requires Over(keys, m) && Positive(keys, m)
    ensures |keys| <= Sum(keys, m)
    decreases |keys|
  {
    if keys != [] {
      AtLeastOnes(keys[1..], m);
    }
  }

  /** Room goes to the heaviest bucket first: if one gained, every heavier one is full. */
  predicate HeaviestFirst(keys: seq<Key>, before: map<Key, int>, after: map<Key, int>, sizes: map<Key, int>,
                          weights: map<Key, real>)
    requires Over(keys, before) && Over(keys, after) && Over(keys, sizes) && Over(keys, weights)
  {
    forall a, b | a in keys && b in keys && before[a] < after[a] && weights[a] < weights[b] :: after[b] == sizes[b]
  }

  /** Give to the heaviest bucket with room until the target is met or every bucket is full. */
  method Expand(keys: seq<Key>, quotas: map<Key, int>, sizes: map<Key, int>, weights: map<Key, real>, target: int)
    returns (expanded: map<Key, int>)
    requires Distinct(keys) && Over(keys, quotas) && Over(keys, sizes) && Over(keys, weights)
    requires Between(keys, quotas, sizes)
    ensures Over(keys, expanded) && Between(keys, quotas, expanded) && Between(keys, expanded, sizes)
    ensures HeaviestFirst(keys, quotas, expanded, sizes, weights)
    ensures target <= Sum(keys, quotas) ==> expanded == quotas
    ensures Sum(keys, quotas) <= target <= Sum(keys, sizes) ==> Sum(keys, expanded) == target
  {
    expanded := quotas;
    var shared := Sum(keys, quotas);
    while shared < target
      invariant Over(keys, expanded) && shared == Sum(keys, expanded)
      invariant Between(keys, quotas, expanded) && Between(keys, expanded, sizes)
      invariant HeaviestFirst(keys, quotas, expanded, sizes, weights)
      invariant target <= Sum(keys, quotas) ==> expanded == quotas
      invariant Sum(keys, quotas) <= target ==> shared <= target
      decreases target - shared
    {
      var key := HeaviestExpandable(keys, expanded, sizes, weights);
      if key.None? {
        SumMonotone(keys, sizes, expanded);
        return;
      }
      SumUpdates(keys, expanded, key.value, expanded[key.value] + 1);
      expanded := expanded[key.value := expanded[key.value] + 1];
      shared := shared + 1;
    }
  }

  function TotalWeight(keys: seq<Key>, weights: map<Key, real>): real
    requires Over(keys, weights)
    decreases |keys|
  {
    if keys == [] then 0.0 else TotalWeight(keys[..|keys| - 1], weights) + weights[keys[|keys| - 1]]
  }

  /** The total weight is the sum of the weights. */
  lemma {:induction false} WeightsAddUp(a: seq<Key>, b: seq<Key>, key: Key, weights: map<Key, real>)
    requires Over(a, weights) && Over(b, weights) && key in weights
    ensures TotalWeight([], weights) == 0.0 && TotalWeight([key], weights) == weights[key]
    ensures Over(a + b, weights) && TotalWeight(a + b, weights) == TotalWeight(a, weights) + TotalWeight(b, weights)
    decreases |b|
  {
    assert [key][..0] == [];
    if b == [] {
      assert a + b == a;
    } else {
      WeightsAddUp(a, b[..|b| - 1], key, weights);
      assert (a + b)[..|a + b| - 1] == a + b[..|b| - 1];
    }
  }

  /** Quotas that come from the proportional shares by levelling down, then filling the heaviest. */
  predicate Apportioned(keys: seq<Key>, sizes: map<Key, int>, weights: map<Key, real>, target: nat,
                        shares: map<Key, int>, reduced: map<Key, int>, quotas: map<Key, int>)
  {
    && Over(keys, sizes) && Over(keys, weights) && Over(keys, shares) && Over(keys, reduced) && Over(keys, quotas)
    && 0.0 < TotalWeight(keys, weights)
    && (forall k | k in keys ::
          1 <= sizes[k] && shares[k] == Share(target, weights[k], TotalWeight(keys, weights), sizes[k]))
    && Between(keys, reduced, shares) && Levelled(keys, shares, reduced)
    && Between(keys, reduced, quotas) && HeaviestFirst(keys, reduced, quotas, sizes, weights)
    && (Sum(keys, shares) == target ==> quotas == shares)
  }

  /**
    The quotas: each from one to its bucket's size, and together exactly the
    target, or one each when there are more buckets than that.
   */
  method Apportion(keys: seq<Key>, sizes: map<Key, int>, weights: map<Key, real>, target: nat)
    returns (quotas: map<Key, int>, ghost shares: map<Key, int>, ghost reduced: map<Key, int>)
    requires keys != [] && Distinct(keys) && Over(keys, sizes) && Over(keys, weights)
    requires forall k | k in keys :: 1 <= sizes[k] && 0.0 < weights[k]
    requires target <= Sum(keys, sizes)
    ensures Over(keys, quotas) && forall k | k in keys :: 1 <= quotas[k] <= sizes[k]
    ensures Sum(keys, quotas) == if |keys| <= target then target else |keys|
    ensures target < |keys| ==> forall k | k in keys :: quotas[k] == 1
    ensures Apportioned(keys, sizes, weights, target, shares, reduced, quotas)
  {
    var total := 0.0;
    var i := 0;
    while i < |keys|
      invariant 0 <= i <= |keys| && (0 < i ==> 0.0 < total)
      invariant total == TotalWeight(keys[..i], weights)
    {
      assert keys[..i + 1][..i] == keys[..i];
      total := total + weights[keys[i]];
      i := i + 1;
    }
    assert keys[..i] == keys;
    var first: map<Key, int> := map[];
    i := 0;
    while i < |keys|
      invariant 0 <= i <= |keys|
      invariant forall j | 0 <= j < i ::
                  keys[j] in first && first[keys[j]] == Share(target, weights[keys[j]], total, sizes[keys[j]])
    {
      first := first[keys[i] := Share(target, weights[keys[i]], total, sizes[keys[i]])];
      i := i + 1;
    }
    hide Share;
    shares := first;
    var lowered := Reduce(keys, first, target);
    reduced := lowered;
    if target < |keys| {
      SumOfOnes(keys, lowered);
    }
    quotas := Expand(keys, lowered, sizes, weights, target);
    if target < |keys| {
      SumOfOnes(keys, quotas);
    }
  }
}

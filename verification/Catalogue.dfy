/**
  Curating a catalogue: candidates are bucketed, each bucket gets a quota, and
  a varied group of that size is picked greedily from each.
 */
module Catalogue {
  import opened Options
  import opened StableSort
  import opened CatalogueQuotas

  /** `bucket` stands for the pose, zone and style together. */
  datatype Candidate = Candidate(bucket: Key, speed: string, stem: string, family: string, version: int, segment: int,
                                 signature: seq<real>)

  // ----- Picking a varied group -----

  function Distance(a: real, b: real): real { if a < b then b - a else a - b }

  function LargestGap(a: seq<real>, b: seq<real>): (r: real)
    requires |a| == |b|
    ensures 0.0 <= r
  {
    if a == [] then 0.0
    else
      var rest := LargestGap(a[1..], b[1..]);
      if rest < Distance(a[0], b[0]) then Distance(a[0], b[0]) else rest
  }

  function SignatureDistance(a: seq<real>, b: seq<real>): (r: real)
    ensures 0.0 <= r
  {
    if a == [] || b == [] || |a| != |b| then 0.0 else LargestGap(a, b)
  }

  function NearestDistance(c: Candidate, selected: seq<Candidate>): (r: real)
    requires selected != []
    ensures 0.0 <= r
  {
    var first := SignatureDistance(c.signature, selected[0].signature);
    if |selected| == 1 then first
    else
      var rest := NearestDistance(c, selected[1..]);
      if rest < first then rest else first
  }

  /** How much a candidate would add to those already picked. */
  function Score(c: Candidate, selected: seq<Candidate>): (r: real)
    requires selected != []
    ensures 0.0 <= r
  {
    NearestDistance(c, selected)
    + (if exists p :: p in selected && p.family == c.family then 0.0 else 4.0)
    + (if exists p :: p in selected && p.segment == c.segment then 0.0 else 2.0)
    + (if exists p :: p in selected && p.speed == c.speed then 0.0 else 1.0)
  }

  predicate IsBest(i: nat, remaining: seq<Candidate>, selected: seq<Candidate>)
    requires selected != [] && i < |remaining|
  {
    && (forall j | 0 <= j < |remaining| :: Score(remaining[j], selected) <= Score(remaining[i], selected))
    && (forall j | 0 <= j < i :: Score(remaining[j], selected) < Score(remaining[i], selected))
  }

  /** The first candidate with the highest score. */
  function BestIndex(remaining: seq<Candidate>, selected: seq<Candidate>): (r: nat)
    requires remaining != [] && selected != []
    ensures r < |remaining| && IsBest(r, remaining, selected)
    decreases |remaining|
  {
    if |remaining| == 1 then 0
    else
      var last := |remaining| - 1;
      var i := BestIndex(remaining[..last], selected);
      if Score(remaining[i], selected) < Score(remaining[last], selected) then last else i
  }

  function Without<T>(s: seq<T>, k: nat): (r: seq<T>)
    requires k < |s|
    ensures |r| == |s| - 1 && multiset(s) == multiset(r) + multiset{s[k]}
  {
    assert s == s[..k] + [s[k]] + s[k + 1..];
    s[..k] + s[k + 1..]
  }

  /** Keep picking the best of what is left. */
  function Picked(selected: seq<Candidate>, remaining: seq<Candidate>, quota: int): (r: seq<Candidate>)
    requires selected != []
    ensures |r| == if quota <= |selected| then |selected|
                   else if quota <= |selected| + |remaining| then quota
                   else |selected| + |remaining|
    ensures selected <= r
    ensures multiset(r) <= multiset(selected) + multiset(remaining)
    decreases |remaining|
  {
    if quota <= |selected| || remaining == [] then selected
    else
      var i := BestIndex(remaining, selected);
      Picked(selected + [remaining[i]], Without(remaining, i), quota)
  }

  /** One pass over what remains. */
  method FindBest(remaining: seq<Candidate>, selected: seq<Candidate>) returns (bestIndex: nat)
    requires remaining != [] && selected != []
    ensures bestIndex == BestIndex(remaining, selected)
  {
    hide Score;
    bestIndex := 0;
    var bestScore := -1.0;
    var i := 0;
    while i < |remaining|
      invariant 0 <= i <= |remaining|
      invariant i == 0 ==> bestIndex == 0 && bestScore == -1.0
      invariant 0 < i ==> bestIndex < i && bestScore == Score(remaining[bestIndex], selected)
      invariant 0 < i ==> bestIndex == BestIndex(remaining[..i], selected)
    {
      assert 0 < i ==> remaining[..i + 1][..i] == remaining[..i];
      var score := Score(remaining[i], selected);
      if score > bestScore {
        bestScore, bestIndex := score, i;
      }
      i := i + 1;
    }
    assert remaining[..i] == remaining;
  }

  /** A varied group: all when it fits, else the first in rank and then the best of what is left. */
  function Group(group: seq<Candidate>, quota: int, rank: (Candidate, Candidate) -> bool): (r: seq<Candidate>)
    requires group != []
    ensures 1 <= quota ==> |r| == if |group| <= quota then |group| else quota
    ensures multiset(r) <= multiset(group)
  {
    if |group| <= quota then group
    else
      var ranked := Sort(group, rank);
      assert ranked == [ranked[0]] + ranked[1..];
      Picked([ranked[0]], ranked[1..], quota)
  }

  /** Pop the best of what remains until the quota is met. */
  method SelectDiverseGroup(group: seq<Candidate>, quota: int, rank: (Candidate, Candidate) -> bool)
    returns (selected: seq<Candidate>)
    requires group != []
    ensures selected == Group(group, quota, rank)
  {
    hide BestIndex, Sort;
    if |group| <= quota {
      return group;
    }
    var ranked := Sort(group, rank);
    assert ranked == [ranked[0]] + ranked[1..];
    selected := [ranked[0]];
    var remaining := ranked[1..];
    while |selected| < quota && remaining != []
      invariant selected != []
      invariant Picked(selected, remaining, quota) == Picked([ranked[0]], ranked[1..], quota)
      decreases |remaining|
    {
      var bestIndex := FindBest(remaining, selected);
      selected, remaining := selected + [remaining[bestIndex]], Without(remaining, bestIndex);
    }
  }

  // ----- What a pick is worth -----

  /** How far two readings are apart, either way round. */
  predicate Apart(a: real, b: real, r: real) { r >= 0.0 && (a + r == b || b + r == a) }

  lemma DistanceIsApart(a: real, b: real)
    ensures Apart(a, b, Distance(a, b))
  {}

  /** Signatures of one length are as far apart as their furthest readings; others are not compared. */
  lemma {:induction false} SignatureDistanceMeans(a: seq<real>, b: seq<real>)
    ensures |a| != |b| || |a| == 0 ==> SignatureDistance(a, b) == 0.0
    ensures |a| == |b| > 0 ==>
              && (exists i :: 0 <= i < |a| && Apart(a[i], b[i], SignatureDistance(a, b)))
              && (forall i, r | 0 <= i < |a| && Apart(a[i], b[i], r) :: r <= SignatureDistance(a, b))
  {
    if |a| == |b| > 0 {
      GapMeans(a, b);
    }
  }

  lemma {:induction false} GapMeans(a: seq<real>, b: seq<real>)
    requires |a| == |b| > 0
    ensures exists i :: 0 <= i < |a| && Apart(a[i], b[i], LargestGap(a, b))
    ensures forall i, r | 0 <= i < |a| && Apart(a[i], b[i], r) :: r <= LargestGap(a, b)
  {
    DistanceIsApart(a[0], b[0]);
    if |a| > 1 {
      GapMeans(a[1..], b[1..]);
      var i :| 0 <= i < |a[1..]| && Apart(a[1..][i], b[1..][i], LargestGap(a[1..], b[1..]));
      assert Apart(a[i + 1], b[i + 1], LargestGap(a[1..], b[1..]));
      forall i, r | 0 <= i < |a| && Apart(a[i], b[i], r) ensures r <= LargestGap(a, b) {
        if i > 0 {
          assert Apart(a[1..][i - 1], b[1..][i - 1], r);
        }
      }
    }
  }

  /** A candidate's distance to those picked is its distance to the nearest. */
  lemma {:induction false} NearestMeans(c: Candidate, selected: seq<Candidate>)
    requires selected != []
    ensures exists p :: p in selected && SignatureDistance(c.signature, p.signature) == NearestDistance(c, selected)
    ensures forall p | p in selected :: NearestDistance(c, selected) <= SignatureDistance(c.signature, p.signature)
    decreases |selected|
  {
    assert selected[0] in selected;
    hide SignatureDistance;
    if |selected| > 1 {
      NearestMeans(c, selected[1..]);
      var p :| p in selected[1..] && SignatureDistance(c.signature, p.signature) == NearestDistance(c, selected[1..]);
      assert p in selected;
      assert forall q | q in selected :: q == selected[0] || q in selected[1..];
    }
  }

  /** A pick is worth its distance to the nearest, and 4, 2 and 1 for a family, a segment and a speed not picked yet. */
  lemma ScoreMeans(c: Candidate, selected: seq<Candidate>)
    requires selected != []
    ensures var bonus := Score(c, selected) - NearestDistance(c, selected);
            var newFamily := forall p | p in selected :: p.family != c.family;
            var newSegment := forall p | p in selected :: p.segment != c.segment;
            var newSpeed := forall p | p in selected :: p.speed != c.speed;
            && (newFamily && newSegment && newSpeed ==> bonus == 7.0)
            && (newFamily && newSegment && !newSpeed ==> bonus == 6.0)
            && (newFamily && !newSegment && newSpeed ==> bonus == 5.0)
            && (newFamily && !newSegment && !newSpeed ==> bonus == 4.0)
            && (!newFamily && newSegment && newSpeed ==> bonus == 3.0)
            && (!newFamily && newSegment && !newSpeed ==> bonus == 2.0)
            && (!newFamily && !newSegment && newSpeed ==> bonus == 1.0)
            && (!newFamily && !newSegment && !newSpeed ==> bonus == 0.0)
  {
    hide NearestDistance;
  }

  /** The best of what was left is picked, the first of several; the rest stays in order. */
  predicate PicksBest(left: seq<Candidate>, after: seq<Candidate>, selected: seq<Candidate>, pick: Candidate, k: nat) {
    && selected != [] && k < |left| && pick == left[k] && IsBest(k, left, selected)
    && |after| == |left| - 1 && forall j: nat | j < |after| :: after[j] == left[if j < k then j else j + 1]
  }

  /** `r` extends the picks one best at a time, `lefts` being what was left before each and `at` where it stood. */
  predicate PickedInTurn(selected: seq<Candidate>, r: seq<Candidate>, lefts: seq<seq<Candidate>>, at: seq<nat>) {
    && |r| == |selected| + |at| && |lefts| == |at| + 1
    && forall i: nat | i < |at| :: PicksBest(lefts[i], lefts[i + 1], r[..|selected| + i], r[|selected| + i], at[i])
  }

  lemma OneMoreTurn(selected: seq<Candidate>, pick: Candidate, left: seq<Candidate>, k: nat, r: seq<Candidate>,
                    lefts: seq<seq<Candidate>>, at: seq<nat>)
    requires PickedInTurn(selected + [pick], r, lefts, at) && selected + [pick] <= r
    requires PicksBest(left, lefts[0], selected, pick, k)
    ensures PickedInTurn(selected, r, [left] + lefts, [k] + at)
  {
    hide PicksBest;
    assert r[..|selected|] == selected && r[|selected|] == pick;
    forall i: nat | i < |[k] + at|
      ensures PicksBest(([left] + lefts)[i], ([left] + lefts)[i + 1], r[..|selected| + i], r[|selected| + i],
                        ([k] + at)[i])
    {
      if i > 0 {
        assert PicksBest(lefts[i - 1], lefts[i], r[..|selected + [pick]| + (i - 1)], r[|selected + [pick]| + (i - 1)],
                         at[i - 1]);
      }
    }
  }

  lemma BestIsPicked(left: seq<Candidate>, selected: seq<Candidate>)
    requires left != [] && selected != []
    ensures var k := BestIndex(left, selected); PicksBest(left, Without(left, k), selected, left[k], k)
  {
    hide IsBest;
  }

  /** Picking goes one best at a time until the quota is met or nothing is left. */
  lemma {:induction false} PickedOneByOne(selected: seq<Candidate>, remaining: seq<Candidate>, quota: int)
    returns (lefts: seq<seq<Candidate>>, at: seq<nat>)
    requires selected != []
    ensures var r := Picked(selected, remaining, quota);
            && PickedInTurn(selected, r, lefts, at) && lefts[0] == remaining
            && (|r| >= quota || lefts[|at|] == []) && (at != [] ==> |r| <= quota)
    decreases |remaining|
  {
    if quota <= |selected| || remaining == [] {
      lefts, at := [remaining], [];
    } else {
      var k := BestIndex(remaining, selected);
      var r := Picked(selected, remaining, quota);
      assert r == Picked(selected + [remaining[k]], Without(remaining, k), quota);
      hide PicksBest, IsBest, PickedInTurn, Picked, Score;
      BestIsPicked(remaining, selected);
      var later, places := PickedOneByOne(selected + [remaining[k]], Without(remaining, k), quota);
      lefts, at := [remaining] + later, [k] + places;
      hide BestIndex, Without;
      OneMoreTurn(selected, remaining[k], remaining, k, r, later, places);
    }
  }

  /** A group within its quota stays as it is; a larger one starts from its first candidate in rank. */
  lemma GroupStartsFirst(group: seq<Candidate>, quota: int, rank: (Candidate, Candidate) -> bool)
    requires group != [] && 1 <= quota && Total(rank)
    ensures |group| <= quota ==> Group(group, quota, rank) == group
    ensures quota < |group| ==> Group(group, quota, rank) != [] && Group(group, quota, rank)[0] in group
    ensures quota < |group| ==>
              forall c | c in group :: c == Group(group, quota, rank)[0] || rank(Group(group, quota, rank)[0], c)
  {
    if |group| <= quota {
      return;
    }
    var ranked := Sort(group, rank);
    SortOrders(group, rank);
    assert ranked[0] in multiset(ranked);
    hide Sort, Picked;
    forall c | c in group ensures c == ranked[0] || rank(ranked[0], c) {
      assert c in multiset(ranked);
      var i :| 0 <= i < |ranked| && ranked[i] == c;
    }
  }

  // ----- Buckets -----

  function InBucket(candidates: seq<Candidate>, key: Key): (r: seq<Candidate>)
    ensures |r| <= |candidates|
  {
    if candidates == [] then []
    else
      var rest := InBucket(candidates[..|candidates| - 1], key);
      var last := candidates[|candidates| - 1];
      if last.bucket == key then rest + [last] else rest
  }

  /** Bucket names, in the order they are first met. */
  function Keys(candidates: seq<Candidate>): (r: seq<Key>)
    ensures Distinct(r)
    ensures forall k :: k in r <==> exists i :: 0 <= i < |candidates| && candidates[i].bucket == k
  {
    if candidates == [] then []
    else
      var rest := Keys(candidates[..|candidates| - 1]);
      var last := candidates[|candidates| - 1].bucket;
      if last in rest then rest else rest + [last]
  }

  lemma {:induction false} BucketMembers(candidates: seq<Candidate>, key: Key, c: Candidate)
    ensures multiset(InBucket(candidates, key))[c] == if c.bucket == key then multiset(candidates)[c] else 0
    decreases |candidates|
  {
    if candidates != [] {
      var earlier, last := candidates[..|candidates| - 1], candidates[|candidates| - 1];
      BucketMembers(earlier, key, c);
      assert candidates == earlier + [last];
    }
  }

  lemma BucketTakesLast(s: seq<Candidate>, c: Candidate, key: Key)
    ensures InBucket(s + [c], key) == InBucket(s, key) + if c.bucket == key then [c] else []
  {
    assert (s + [c])[..|s|] == s;
  }

  lemma {:induction false} BucketAppends(a: seq<Candidate>, b: seq<Candidate>, key: Key)
    ensures InBucket(a + b, key) == InBucket(a, key) + InBucket(b, key)
    decreases |b|
  {
    if b == [] {
      assert a + b == a;
    } else {
      hide InBucket;
      var earlier, last := b[..|b| - 1], b[|b| - 1];
      BucketAppends(a, earlier, key);
      BucketTakesLast(a + earlier, last, key);
      BucketTakesLast(earlier, last, key);
      assert b == earlier + [last];
      Regroup(a, earlier, [last]);
      Regroup(InBucket(a, key), InBucket(earlier, key), if last.bucket == key then [last] else []);
    }
  }

  lemma Regroup<T>(a: seq<T>, b: seq<T>, c: seq<T>)
    ensures a + (b + c) == a + b + c
  {
  }

  lemma {:induction false} OneBucket(s: seq<Candidate>, key: Key, other: Key)
    requires forall c | c in s :: c.bucket == key
    ensures InBucket(s, other) == if other == key then s else []
    decreases |s|
  {
    if s != [] {
      assert s[|s| - 1] in s;
      OneBucket(s[..|s| - 1], key, other);
      assert s == s[..|s| - 1] + [s[|s| - 1]];
    }
  }

  function Sizes(candidates: seq<Candidate>, keys: seq<Key>): (r: map<Key, int>)
    ensures Over(keys, r) && forall k | k in r :: k in keys && r[k] == |InBucket(candidates, k)|
  {
    map k | k in keys :: |InBucket(candidates, k)|
  }

  /** The buckets partition the candidates. */
  lemma {:induction false} SizesAddUp(candidates: seq<Candidate>, keys: seq<Key>)
    requires Distinct(keys)
    requires forall i | 0 <= i < |candidates| :: candidates[i].bucket in keys
    ensures Sum(keys, Sizes(candidates, keys)) == |candidates|
    decreases |candidates|
  {
    if candidates == [] {
      SumOfZeros(keys, Sizes(candidates, keys));
    } else {
      var earlier, c := candidates[..|candidates| - 1], candidates[|candidates| - 1];
      hide Sizes, Sum, Distinct;
      SizesAddUp(earlier, keys);
      OneMoreCounted(earlier, c, keys);
      assert candidates == earlier + [c];
    }
  }

  lemma OneMoreCounted(earlier: seq<Candidate>, c: Candidate, keys: seq<Key>)
    requires Distinct(keys) && c.bucket in keys
    ensures Sum(keys, Sizes(earlier + [c], keys)) == Sum(keys, Sizes(earlier, keys)) + 1
  {
    var before := Sizes(earlier, keys);
    OneMoreSize(earlier, c, keys);
    hide InBucket, Sum, Sizes, Distinct;
    SumUpdates(keys, before, c.bucket, before[c.bucket] + 1);
  }

  lemma OneMoreSize(earlier: seq<Candidate>, c: Candidate, keys: seq<Key>)
    requires c.bucket in keys
    ensures var before := Sizes(earlier, keys);
            Sizes(earlier + [c], keys) == before[c.bucket := before[c.bucket] + 1]
  {
    hide InBucket;
    forall k | k in keys {
      BucketTakesLast(earlier, c, k);
    }
  }

  lemma {:induction false} SumOfZeros(keys: seq<Key>, m: map<Key, int>)
    requires Over(keys, m) && forall k | k in keys :: m[k] == 0
    ensures Sum(keys, m) == 0
    decreases |keys|
  {
    if keys != [] {
      SumOfZeros(keys[1..], m);
    }
  }

  lemma BucketsOfPermutation(a: seq<Candidate>, b: seq<Candidate>, key: Key)
    requires multiset(a) == multiset(b)
    ensures |InBucket(a, key)| == |InBucket(b, key)|
  {
    forall c ensures multiset(InBucket(a, key))[c] == multiset(InBucket(b, key))[c] {
      BucketMembers(a, key, c);
      BucketMembers(b, key, c);
    }
    assert multiset(InBucket(a, key)) == multiset(InBucket(b, key));
    assert |multiset(InBucket(a, key))| == |InBucket(a, key)| && |multiset(InBucket(b, key))| == |InBucket(b, key)|;
  }

  lemma KeysMeanBuckets(candidates: seq<Candidate>, key: Key)
    requires key in Keys(candidates)
    ensures InBucket(candidates, key) != []
  {
    var i :| 0 <= i < |candidates| && candidates[i].bucket == key;
    BucketMembers(candidates, key, candidates[i]);
    assert candidates[i] in multiset(candidates);
    assert candidates[i] in multiset(InBucket(candidates, key));
  }

  // ----- Curating -----

  /** Group the candidates by bucket, remembering the order buckets were met in. */
  method Bucketed(candidates: seq<Candidate>) returns (keys: seq<Key>, buckets: map<Key, seq<Candidate>>)
    ensures keys == Keys(candidates) && Over(keys, buckets)
    ensures forall k | k in keys :: buckets[k] == InBucket(candidates, k) && buckets[k] != []
  {
    keys, buckets := [], map[];
    var i := 0;
    while i < |candidates|
      invariant 0 <= i <= |candidates|
      invariant keys == Keys(candidates[..i]) && Over(keys, buckets)
      invariant forall k | k in keys :: buckets[k] == InBucket(candidates[..i], k)
      invariant forall k | k !in keys :: InBucket(candidates[..i], k) == []
    {
      assert candidates[..i + 1][..i] == candidates[..i];
      var key := candidates[i].bucket;
      if key in keys {
        buckets := buckets[key := buckets[key] + [candidates[i]]];
      } else {
        keys, buckets := keys + [key], buckets[key := [candidates[i]]];
      }
      i := i + 1;
    }
    assert candidates[..i] == candidates;
    forall k | k in keys ensures InBucket(candidates, k) != [] {
      KeysMeanBuckets(candidates, k);
    }
  }

  /** Drawn from the candidates: the picks so far hold only the buckets visited, at their quotas. */
  ghost predicate Drawn(selected: seq<Candidate>, candidates: seq<Candidate>, visited: seq<Key>, quotas: map<Key, int>)
    requires Over(visited, quotas)
  {
    && (forall c :: multiset(selected)[c] <= if c.bucket in visited then multiset(candidates)[c] else 0)
    && (forall k | k in visited :: |InBucket(selected, k)| == quotas[k])
    && |selected| == Sum(visited, quotas)
  }

  lemma OnlyThisBucket(picked: seq<Candidate>, candidates: seq<Candidate>, key: Key)
    requires multiset(picked) <= multiset(InBucket(candidates, key))
    ensures forall c | c in picked :: c.bucket == key
    ensures forall c :: multiset(picked)[c] <= if c.bucket == key then multiset(candidates)[c] else 0
  {
    forall c ensures multiset(picked)[c] <= if c.bucket == key then multiset(candidates)[c] else 0 {
      BucketMembers(candidates, key, c);
    }
    forall c | c in picked ensures c.bucket == key {
      assert 0 < multiset(picked)[c];
    }
  }

  lemma {:induction false} SumAppends(keys: seq<Key>, key: Key, m: map<Key, int>)
    requires Over(keys + [key], m)
    ensures Over(keys, m) && Sum(keys + [key], m) == Sum(keys, m) + m[key]
  {
    forall k | k in keys ensures k in m {
      assert k in keys + [key];
    }
    if keys == [] {
      assert [] + [key] == [key];
      assert [key][1..] == [];
    } else {
      assert (keys + [key])[1..] == keys[1..] + [key];
      SumAppends(keys[1..], key, m);
    }
  }

  lemma DrawOne(selected: seq<Candidate>, picked: seq<Candidate>, candidates: seq<Candidate>, visited: seq<Key>,
                key: Key, quotas: map<Key, int>)
    requires Over(visited, quotas) && key in quotas && key !in visited && Drawn(selected, candidates, visited, quotas)
    requires multiset(picked) <= multiset(InBucket(candidates, key)) && |picked| == quotas[key]
    ensures Over(visited + [key], quotas) && Drawn(selected + picked, candidates, visited + [key], quotas)
  {
    OnlyThisBucket(picked, candidates, key);
    SumAppends(visited, key, quotas);
    forall c
      ensures multiset(selected + picked)[c] <= if c.bucket in visited + [key] then multiset(candidates)[c] else 0
    {
      assert multiset(selected + picked)[c] == multiset(selected)[c] + multiset(picked)[c];
    }
    forall k | k in visited + [key]
      ensures |InBucket(selected + picked, k)| == quotas[k]
    {
      BucketAppends(selected, picked, k);
      OneBucket(picked, key, k);
      if k == key {
        NoneYet(selected, candidates, visited, key, quotas);
      }
    }
  }

  /** The picks from each bucket visited are the varied group of its candidates. */
  ghost predicate Greedy(selected: seq<Candidate>, candidates: seq<Candidate>, visited: seq<Key>, quotas: map<Key, int>,
                         rank: (Candidate, Candidate) -> bool)
  {
    && Over(visited, quotas)
    && forall k | k in visited ::
         InBucket(candidates, k) != [] && InBucket(selected, k) == Group(InBucket(candidates, k), quotas[k], rank)
  }

  lemma GreedyOne(selected: seq<Candidate>, picked: seq<Candidate>, candidates: seq<Candidate>, visited: seq<Key>,
                  key: Key, quotas: map<Key, int>, rank: (Candidate, Candidate) -> bool)
    requires Over(visited, quotas) && key in quotas && key !in visited && Drawn(selected, candidates, visited, quotas)
    requires Greedy(selected, candidates, visited, quotas, rank)
    requires InBucket(candidates, key) != [] && picked == Group(InBucket(candidates, key), quotas[key], rank)
    ensures Greedy(selected + picked, candidates, visited + [key], quotas, rank)
  {
    hide Group, InBucket, Sum;
    OnlyThisBucket(picked, candidates, key);
    NoneYet(selected, candidates, visited, key, quotas);
    forall k | k in visited + [key]
      ensures InBucket(selected + picked, k) == InBucket(if k == key then picked else selected, k)
    {
      BucketAppends(selected, picked, k);
      OneBucket(picked, key, k);
    }
    OneBucket(picked, key, key);
  }

  lemma NoneYet(selected: seq<Candidate>, candidates: seq<Candidate>, visited: seq<Key>, key: Key,
                quotas: map<Key, int>)
    requires Over(visited, quotas) && key !in visited && Drawn(selected, candidates, visited, quotas)
    ensures InBucket(selected, key) == []
  {
    var found := InBucket(selected, key);
    forall c ensures c !in multiset(found) {
      BucketMembers(selected, key, c);
    }
    assert multiset(found) == multiset{};
    assert |multiset(found)| == |found|;
  }

  /** Nothing left out is heavier than anything kept. */
  ghost predicate Heaviest(kept: seq<Candidate>, selected: seq<Candidate>, weights: map<Key, real>) {
    exists dropped: seq<Candidate> ::
      && multiset(selected) == multiset(kept) + multiset(dropped)
      && forall c, d | c in kept && d in dropped :: WeightOf(weights, d.bucket) <= WeightOf(weights, c.bucket)
  }

  /** Sort by bucket weight and keep the head of the list. */
  method TrimToTarget(selected: seq<Candidate>, weights: map<Key, real>, target: nat) returns (kept: seq<Candidate>)
    requires target < |selected|
    ensures |kept| == target && multiset(kept) <= multiset(selected)
    ensures forall k :: |InBucket(kept, k)| <= |InBucket(selected, k)|
    ensures Heaviest(kept, selected, weights)
  {
    hide InBucket, Sort, Heaviest;
    var heavier := (a: Candidate, b: Candidate) => WeightOf(weights, b.bucket) <= WeightOf(weights, a.bucket);
    var sorted := Sort(selected, heavier);
    kept := sorted[..target];
    SortOrders(selected, heavier);
    HeadIsHeaviest(selected, sorted, weights, heavier, target);
  }

  lemma HeadIsHeaviest(selected: seq<Candidate>, sorted: seq<Candidate>, weights: map<Key, real>,
                       heavier: (Candidate, Candidate) -> bool, target: nat)
    requires multiset(sorted) == multiset(selected) && target < |sorted| && Ordered(sorted, heavier)
    requires forall a, b :: heavier(a, b) ==> WeightOf(weights, b.bucket) <= WeightOf(weights, a.bucket)
    ensures multiset(sorted[..target]) <= multiset(selected)
    ensures forall k :: |InBucket(sorted[..target], k)| <= |InBucket(selected, k)|
    ensures Heaviest(sorted[..target], selected, weights)
  {
    hide InBucket, WeightOf;
    var kept, dropped := sorted[..target], sorted[target..];
    assert sorted == kept + dropped;
    assert multiset(selected) == multiset(kept) + multiset(dropped);
    forall k ensures |InBucket(kept, k)| <= |InBucket(selected, k)| {
      BucketsOfPermutation(selected, sorted, k);
      BucketAppends(kept, dropped, k);
    }
    forall c, d | c in kept && d in dropped ensures WeightOf(weights, d.bucket) <= WeightOf(weights, c.bucket) {
      var i :| 0 <= i < |kept| && kept[i] == c;
      var j :| 0 <= j < |dropped| && dropped[j] == d;
      assert heavier(sorted[i], sorted[target + j]);
    }
  }

  /** A bucket's size, scaled by its kind. */
  function Weighted(size: nat, factor: real): (r: real)
    ensures 0 < size && 0.0 < factor ==> 0.0 < r
  {
    size as real * factor
  }

  /** Each candidate of a bucket adds the bucket's factor to its weight. */
  lemma WeightedMeans(size: nat, factor: real)
    ensures Weighted(0, factor) == 0.0 && Weighted(size + 1, factor) == Weighted(size, factor) + factor
  {}

  function WeightOf(weights: map<Key, real>, key: Key): real { if key in weights then weights[key] else 0.0 }

  /** What the curated catalogue is, for more candidates than the target. */
  ghost predicate Curated(selected: seq<Candidate>, candidates: seq<Candidate>, factor: Key -> real,
                          order: (Candidate, Candidate) -> bool, quotas: map<Key, int>, target: nat)
  {
    && multiset(selected) <= multiset(candidates) && |selected| == target
    && Over(Keys(candidates), quotas)
    && (forall k | k in Keys(candidates) :: 1 <= quotas[k] <= |InBucket(candidates, k)|)
    && (|Keys(candidates)| <= target ==>
          Sum(Keys(candidates), quotas) == target && forall k | k in Keys(candidates) ::
              |InBucket(selected, k)| == quotas[k])
    && (target < |Keys(candidates)| ==> forall k | k in Keys(candidates) ::
          quotas[k] == 1 && |InBucket(selected, k)| <= 1)
    && LightestLeftOut(selected, candidates, factor)
    && (Total(order) ==> Ordered(selected, order))
  }

  function Weight(candidates: seq<Candidate>, factor: Key -> real, key: Key): real {
    Weighted(|InBucket(candidates, key)|, factor(key))
  }

  function Weights(candidates: seq<Candidate>, factor: Key -> real): map<Key, real> {
    map k | k in Keys(candidates) :: Weight(candidates, factor, k)
  }

  /**
    Every pick from a bucket is one of its varied group, and all of them where
    the target has room for every bucket.
   */
  ghost predicate GreedyChoice(selected: seq<Candidate>, candidates: seq<Candidate>, quotas: map<Key, int>,
                               rank: (Candidate, Candidate) -> bool, target: nat)
  {
    && Over(Keys(candidates), quotas)
    && forall k | k in Keys(candidates) ::
         && InBucket(candidates, k) != []
         && var group := Group(InBucket(candidates, k), quotas[k], rank);
         && multiset(InBucket(selected, k)) <= multiset(group)
         && (|Keys(candidates)| <= target ==> multiset(InBucket(selected, k)) == multiset(group))
  }

  lemma GreedyStays(picked: seq<Candidate>, selected: seq<Candidate>, candidates: seq<Candidate>, quotas: map<Key, int>,
                    rank: (Candidate, Candidate) -> bool, target: nat)
    requires Greedy(picked, candidates, Keys(candidates), quotas, rank)
    requires multiset(selected) <= multiset(picked)
    requires |Keys(candidates)| <= target ==> multiset(selected) == multiset(picked)
    ensures GreedyChoice(selected, candidates, quotas, rank, target)
  {
    hide Group, InBucket, Keys;
    forall k ensures multiset(InBucket(selected, k)) <= multiset(InBucket(picked, k))
      ensures |Keys(candidates)| <= target ==> multiset(InBucket(selected, k)) == multiset(InBucket(picked, k))
    {
      forall c
        ensures multiset(InBucket(selected, k))[c] <= multiset(InBucket(picked, k))[c]
        ensures |Keys(candidates)| <= target ==> multiset(InBucket(selected, k))[c] == multiset(InBucket(picked, k))[c]
      {
        BucketMembers(selected, k, c);
        BucketMembers(picked, k, c);
      }
    }
  }

  /** No bucket left out is heavier than one kept. */
  ghost predicate LightestLeftOut(selected: seq<Candidate>, candidates: seq<Candidate>, factor: Key -> real) {
    forall a, b |
      a in Keys(candidates) && b in Keys(candidates) && InBucket(selected, a) != [] && InBucket(selected, b) == [] ::
      Weight(candidates, factor, b) <= Weight(candidates, factor, a)
  }

  lemma Represented(s: seq<Candidate>, key: Key) returns (c: Candidate)
    requires InBucket(s, key) != []
    ensures c in s && c.bucket == key
  {
    c := InBucket(s, key)[0];
    BucketMembers(s, key, c);
    assert c in multiset(InBucket(s, key));
    assert c in multiset(s);
  }

  /** Keeping the heaviest of one pick per bucket leaves out the lightest buckets. */
  lemma HeaviestLeavesLightest(kept: seq<Candidate>, picked: seq<Candidate>, candidates: seq<Candidate>,
                               factor: Key -> real, weights: map<Key, real>)
    requires Heaviest(kept, picked, weights)
    requires forall k | k in Keys(candidates) ::
               InBucket(picked, k) != [] && WeightOf(weights, k) == Weight(candidates, factor, k)
    ensures LightestLeftOut(kept, candidates, factor)
  {
    hide InBucket, Weight, WeightOf, Keys;
    var dropped: seq<Candidate> :|
      && multiset(picked) == multiset(kept) + multiset(dropped)
      && forall c, d | c in kept && d in dropped :: WeightOf(weights, d.bucket) <= WeightOf(weights, c.bucket);
    forall a, b | a in Keys(candidates) && b in Keys(candidates) && InBucket(kept, a) != [] && InBucket(kept, b) == []
      ensures Weight(candidates, factor, b) <= Weight(candidates, factor, a)
    {
      var c := Represented(kept, a);
      var d := Represented(picked, b);
      BucketMembers(kept, b, d);
      assert d in multiset(picked);
      assert d in multiset(kept) || d in multiset(dropped);
    }
  }

  /** Pick each bucket's group in turn. */
  method SelectGroups(keys: seq<Key>, buckets: map<Key, seq<Candidate>>, quotas: map<Key, int>,
                      ghost candidates: seq<Candidate>,
                      rank: (Candidate, Candidate) -> bool) returns (selected: seq<Candidate>)
    requires Distinct(keys) && Over(keys, buckets) && Over(keys, quotas)
    requires forall k | k in keys :: buckets[k] == InBucket(candidates, k) && 1 <= quotas[k] <= |buckets[k]|
    ensures Drawn(selected, candidates, keys, quotas) && Greedy(selected, candidates, keys, quotas, rank)
  {
    hide Sum, InBucket, Group, Drawn, Greedy;
    selected := [];
    EmptyDraw(candidates, quotas);
    var i := 0;
    while i < |keys|
      invariant 0 <= i <= |keys| && Over(keys[..i], quotas)
      invariant Drawn(selected, candidates, keys[..i], quotas) && Greedy(selected, candidates, keys[..i], quotas, rank)
    {
      var picked := SelectDiverseGroup(buckets[keys[i]], quotas[keys[i]], rank);
      DrawOne(selected, picked, candidates, keys[..i], keys[i], quotas);
      GreedyOne(selected, picked, candidates, keys[..i], keys[i], quotas, rank);
      assert keys[..i] + [keys[i]] == keys[..i + 1];
      selected := selected + picked;
      i := i + 1;
    }
    assert keys[..i] == keys;
  }

  lemma EmptyDraw(candidates: seq<Candidate>, quotas: map<Key, int>)
    ensures Drawn([], candidates, [], quotas)
    ensures forall rank :: Greedy([], candidates, [], quotas, rank)
  {}

  /** The end of the pass: trim what is over the target, then put the catalogue in order. */
  method TrimAndOrder(picked: seq<Candidate>, weights: map<Key, real>, target: nat,
                      order: (Candidate, Candidate) -> bool,
                      ghost candidates: seq<Candidate>, ghost factor: Key -> real, ghost quotas: map<Key, int>,
                      ghost rank: (Candidate, Candidate) -> bool)
    returns (selected: seq<Candidate>)
    requires Allotted(picked, candidates, quotas, target) && Greedy(picked, candidates, Keys(candidates), quotas, rank)
    requires forall k | k in Keys(candidates) :: WeightOf(weights, k) == Weight(candidates, factor, k)
    ensures |selected| == target && Curated(selected, candidates, factor, order, quotas, target)
    ensures GreedyChoice(selected, candidates, quotas, rank, target)
  {
    hide Curated, Sum, InBucket, Sort, WeightOf, Weight, Heaviest, LightestLeftOut, Total, Ordered, Keys, Greedy,
         GreedyChoice;
    AsManyAsWanted(picked, candidates, quotas, target);
    var kept := picked;
    if |picked| > target {
      kept := TrimToTarget(picked, weights, target);
      HeaviestLeavesLightest(kept, picked, candidates, factor, weights);
    } else {
      NoneLeftOut(kept, candidates, factor);
    }
    SortingKeepsBuckets(kept, candidates, factor, order);
    selected := Sort(kept, order);
    CuratedFrom(picked, kept, selected, candidates, factor, order, quotas, target);
    GreedyStays(picked, selected, candidates, quotas, rank, target);
  }

  lemma AsManyAsWanted(picked: seq<Candidate>, candidates: seq<Candidate>, quotas: map<Key, int>, target: nat)
    requires Allotted(picked, candidates, quotas, target)
    ensures target <= |picked| && (|Keys(candidates)| <= target ==> |picked| == target)
  {
    hide InBucket, Keys, Sum;
  }

  /** The picks of all buckets, at quotas that meet the target or leave one each. */
  ghost predicate Allotted(picked: seq<Candidate>, candidates: seq<Candidate>, quotas: map<Key, int>, target: nat) {
    && multiset(picked) <= multiset(candidates)
    && Over(Keys(candidates), quotas) && |picked| == Sum(Keys(candidates), quotas)
    && (forall k | k in Keys(candidates) ::
          1 <= quotas[k] <= |InBucket(candidates, k)| && |InBucket(picked, k)| == quotas[k])
    && Sum(Keys(candidates), quotas) == (if |Keys(candidates)| <= target then target else |Keys(candidates)|)
    && (target < |Keys(candidates)| ==> forall k | k in Keys(candidates) :: quotas[k] == 1)
  }

  /**
    Exactly the target, or all of them when there are fewer; always drawn from
    the candidates, every bucket represented when the target has room for that
    and the lightest left out when it has not, in the catalogue's order.
   */
  method CurateCatalog(candidates: seq<Candidate>, target: nat, factor: Key -> real,
                       rank: (Candidate, Candidate) -> bool, order: (Candidate, Candidate) -> bool)
    returns (selected: seq<Candidate>, ghost shares: map<Key, int>, ghost reduced: map<Key, int>,
             ghost quotas: map<Key, int>)
    requires forall k :: 0.0 < factor(k)
    ensures |selected| == if |candidates| <= target then |candidates| else target
    ensures |candidates| <= target ==> selected == candidates
    ensures target < |candidates| ==> Curated(selected, candidates, factor, order, quotas, target)
    ensures target < |candidates| ==> GreedyChoice(selected, candidates, quotas, rank, target)
    ensures target < |candidates| ==>
              var keys := Keys(candidates);
              Apportioned(keys, Sizes(candidates, keys), Weights(candidates, factor), target, shares, reduced, quotas)
  {
    if |candidates| <= target {
      return candidates, map[], map[], map[];
    }
    hide Drawn, Curated, Sum, InBucket, Sort, Weighted, Weight, WeightOf, Allotted, Greedy, GreedyChoice, Keys,
         Apportioned, Distinct;
    var keys, buckets := Bucketed(candidates);
    var sizes := map k | k in keys :: |buckets[k]|;
    var weights := map k | k in keys :: Weighted(|buckets[k]|, factor(k));
    SizesAndWeights(candidates, factor, sizes, weights);
    var allotted;
    allotted, shares, reduced := Apportion(keys, sizes, weights, target);
    quotas := allotted;
    selected := SelectGroups(keys, buckets, allotted, candidates, rank);
    DrawnIsAllotted(selected, candidates, quotas, target);
    selected := TrimAndOrder(selected, weights, target, order, candidates, factor, quotas, rank);
  }

  lemma SortingKeepsBuckets(unsorted: seq<Candidate>, candidates: seq<Candidate>, factor: Key -> real,
                            order: (Candidate, Candidate) -> bool)
    requires LightestLeftOut(unsorted, candidates, factor)
    ensures forall k :: |InBucket(Sort(unsorted, order), k)| == |InBucket(unsorted, k)|
    ensures LightestLeftOut(Sort(unsorted, order), candidates, factor)
    ensures Total(order) ==> Ordered(Sort(unsorted, order), order)
  {
    hide InBucket, LightestLeftOut, Total, Ordered, Sort;
    var selected := Sort(unsorted, order);
    forall k ensures |InBucket(selected, k)| == |InBucket(unsorted, k)| {
      BucketsOfPermutation(selected, unsorted, k);
    }
    SameBucketsLeftOut(unsorted, selected, candidates, factor);
    if Total(order) {
      SortOrders(unsorted, order);
    }
  }

  lemma NoneLeftOut(selected: seq<Candidate>, candidates: seq<Candidate>, factor: Key -> real)
    requires forall k | k in Keys(candidates) :: InBucket(selected, k) != []
    ensures LightestLeftOut(selected, candidates, factor)
  {
    hide InBucket, Keys;
  }

  lemma SameBucketsLeftOut(a: seq<Candidate>, b: seq<Candidate>, candidates: seq<Candidate>, factor: Key -> real)
    requires forall k :: |InBucket(b, k)| == |InBucket(a, k)|
    requires LightestLeftOut(a, candidates, factor)
    ensures LightestLeftOut(b, candidates, factor)
  {
    hide InBucket, Keys, Weight;
    forall k ensures InBucket(b, k) == [] <==> InBucket(a, k) == [] {
      assert |InBucket(b, k)| == |InBucket(a, k)|;
    }
  }

  /** The sizes and weights computed are those of the buckets. */
  lemma SizesAndWeights(candidates: seq<Candidate>, factor: Key -> real, sizes: map<Key, int>, weights: map<Key, real>)
    requires candidates != [] && forall k :: 0.0 < factor(k)
    requires sizes.Keys == weights.Keys && forall k :: k in sizes <==> k in Keys(candidates)
    requires forall k | k in sizes ::
               sizes[k] == |InBucket(candidates, k)| && weights[k] == Weighted(sizes[k], factor(k))
    requires forall k | k in sizes :: 1 <= sizes[k]
    ensures sizes == Sizes(candidates, Keys(candidates)) && weights == Weights(candidates, factor)
    ensures Keys(candidates) != [] && Sum(Keys(candidates), sizes) == |candidates|
    ensures forall k | k in Keys(candidates) ::
              0.0 < weights[k] && WeightOf(weights, k) == Weight(candidates, factor, k)
  {
    hide InBucket, Sum, Keys, Sizes;
    var keys := Keys(candidates);
    assert candidates[0].bucket in keys;
    assert forall i | 0 <= i < |candidates| :: candidates[i].bucket in keys;
    SizesAddUp(candidates, keys);
    assert sizes == Sizes(candidates, keys);
    assert weights == Weights(candidates, factor);
  }

  lemma DrawnIsAllotted(picked: seq<Candidate>, candidates: seq<Candidate>, quotas: map<Key, int>, target: nat)
    requires Over(Keys(candidates), quotas) && Drawn(picked, candidates, Keys(candidates), quotas)
    requires forall k | k in Keys(candidates) :: 1 <= quotas[k] <= |InBucket(candidates, k)|
    requires Sum(Keys(candidates), quotas) == if |Keys(candidates)| <= target then target else |Keys(candidates)|
    requires target < |Keys(candidates)| ==> forall k | k in Keys(candidates) :: quotas[k] == 1
    ensures Allotted(picked, candidates, quotas, target)
  {
    hide Sum, InBucket;
    forall c ensures multiset(picked)[c] <= multiset(candidates)[c] {}
  }

  lemma CuratedFrom(picked: seq<Candidate>, unsorted: seq<Candidate>, selected: seq<Candidate>,
                    candidates: seq<Candidate>,
                    factor: Key -> real, order: (Candidate, Candidate) -> bool, quotas: map<Key, int>, target: nat)
    requires Allotted(picked, candidates, quotas, target)
    requires multiset(unsorted) <= multiset(picked) && multiset(selected) == multiset(unsorted)
    requires |selected| == |unsorted| == target
    requires forall k :: |InBucket(selected, k)| == |InBucket(unsorted, k)| <= |InBucket(picked, k)|
    requires |picked| <= target ==> unsorted == picked
    requires LightestLeftOut(selected, candidates, factor) && (Total(order) ==> Ordered(selected, order))
    ensures Curated(selected, candidates, factor, order, quotas, target)
  {
    hide Sum, InBucket, LightestLeftOut, Total, Ordered;
  }
}

/**
  Repairing a captured clip: strokes too small to feel are merged away, strokes
  slower than the floor are shortened, and what still fails is rejected.
  Positions are reals, times whole milliseconds.
 */
module ClipRepair {
  const FLOOR_VELOCITY: real := 42.0
  const MIN_AMPLITUDE: real := 22.0
  const MIN_REVERSAL_GAP: real := 450.0
  const ACCEL_BUDGET: real := 2600.0
  const MIN_TURNING_POINTS: nat := 5

  datatype Point = Point(time: int, position: real)

  /** Turning positions of a cyclic clip, and the duration of the stroke leaving each. */
  datatype Strokes = Strokes(positions: seq<real>, durations: seq<int>)

  predicate Paired(s: Strokes) { |s.positions| == |s.durations| }

  function Abs(x: real): real { if x < 0.0 then -x else x }

  function Amplitude(positions: seq<real>, i: nat): real
    requires i < |positions|
  {
    Abs(positions[(i + 1) % |positions|] - positions[i])
  }

  function Total(durations: seq<int>): int {
    if durations == [] then 0 else durations[0] + Total(durations[1..])
  }

  function RemoveAt<T>(s: seq<T>, k: nat): (r: seq<T>)
    requires k < |s|
    ensures |r| == |s| - 1
    ensures forall i | 0 <= i < |r| :: r[i] == if i < k then s[i] else s[i + 1]
  {
    s[..k] + s[k + 1..]
  }

  // ----- Merging -----

  /** The first stroke too small to feel, at or after `i`. */
  function FirstShort(positions: seq<real>, i: nat): (r: nat)
    requires i <= |positions|
    ensures i <= r <= |positions|
    ensures r < |positions| ==> Amplitude(positions, r) < MIN_AMPLITUDE
    ensures forall j | i <= j < r :: MIN_AMPLITUDE <= Amplitude(positions, j)
    decreases |positions| - i
  {
    if i == |positions| || Amplitude(positions, i) < MIN_AMPLITUDE then i else FirstShort(positions, i + 1)
  }

  /** Delete the turning point a stroke leads into, carrying the next stroke's time over. */
  function MergeAt(s: Strokes, i: nat): (r: Strokes)
    requires Paired(s) && i < |s.positions| && 1 < |s.positions|
    ensures Paired(r) && |r.positions| == |s.positions| - 1
  {
    var next := (i + 1) % |s.positions|;
    Strokes(RemoveAt(s.positions, next), RemoveAt(s.durations[i := s.durations[i] + s.durations[next]], next))
  }

  function Merged(s: Strokes): (r: Strokes)
    requires Paired(s)
    ensures Paired(r) && |r.positions| <= |s.positions|
    decreases |s.positions|
  {
    if |s.positions| <= MIN_TURNING_POINTS then s
    else
      var i := FirstShort(s.positions, 0);
      if i == |s.positions| then s else Merged(MergeAt(s, i))
  }

  /** The scan for a stroke too small to feel; -1 when there is none. */
  method FindShortStroke(positions: seq<real>) returns (index: int)
    ensures index == if FirstShort(positions, 0) == |positions| then -1 else FirstShort(positions, 0)
  {
    index := -1;
    var i := 0;
    while i < |positions|
      invariant 0 <= i <= |positions|
      invariant FirstShort(positions, i) == FirstShort(positions, 0)
    {
      if Amplitude(positions, i) < MIN_AMPLITUDE {
        return i;
      }
      i := i + 1;
    }
  }

  /** The merge loop on the two arrays; its guard counts down but never ends the loop. */
  method MergeShortStrokes(s: Strokes) returns (r: Strokes)
    requires Paired(s)
    ensures r == Merged(s)
  {
    hide Amplitude, RemoveAt, FirstShort;
    var positions, durations := s.positions, s.durations;
    var guard := |positions| * 4;
    while |positions| > MIN_TURNING_POINTS && guard > 0
      invariant |positions| == |durations| <= |s.positions|
      invariant Merged(Strokes(positions, durations)) == Merged(s)
      invariant guard == 3 * |s.positions| + |positions|
      decreases guard
    {
      guard := guard - 1;
      var index := FindShortStroke(positions);
      if index < 0 {
        return Strokes(positions, durations);
      }
      var next := (index + 1) % |positions|;
      durations := durations[index := durations[index] + durations[next]];
      positions, durations := RemoveAt(positions, next), RemoveAt(durations, next);
    }
    r := Strokes(positions, durations);
  }

  predicate AllFelt(positions: seq<real>) {
    forall i | 0 <= i < |positions| :: MIN_AMPLITUDE <= Amplitude(positions, i)
  }

  /** Where the turning points fall, `start` being the time of the first. */
  function Timeline(positions: seq<real>, durations: seq<int>, start: int): (r: seq<Point>)
    requires |positions| == |durations|
    ensures |r| == |positions|
  {
    if positions == [] then []
    else [Point(start, positions[0])] + Timeline(positions[1..], durations[1..], start + durations[0])
  }

  /** Some elements of `b`, in order. */
  predicate Subsequence<T(==)>(a: seq<T>, b: seq<T>) {
    if a == [] then true
    else if b == [] then false
    else if a[0] == b[0] then Subsequence(a[1..], b[1..]) || Subsequence(a, b[1..])
    else Subsequence(a, b[1..])
  }

  lemma {:induction false} SubsequenceSelf<T>(a: seq<T>)
    ensures Subsequence(a, a)
  {
    if a != [] {
      SubsequenceSelf(a[1..]);
    }
  }

  lemma {:induction false} SubsequenceSkips<T>(a: seq<T>, b: seq<T>)
    requires a != [] && Subsequence(a, b)
    ensures Subsequence(a[1..], b)
    decreases |b|
  {
    if a[0] == b[0] && Subsequence(a[1..], b[1..]) {
      if a[1..] != [] {
        SubsequenceWeakens(a[1..], b);
      }
    } else {
      SubsequenceSkips(a, b[1..]);
      if a[1..] != [] {
        SubsequenceWeakens(a[1..], b);
      }
    }
  }

  lemma SubsequenceWeakens<T>(a: seq<T>, b: seq<T>)
    requires b != [] && Subsequence(a, b[1..])
    ensures Subsequence(a, b)
  {}

  lemma {:induction false} SubsequenceTransitive<T>(a: seq<T>, b: seq<T>, c: seq<T>)
    requires Subsequence(a, b) && Subsequence(b, c)
    ensures Subsequence(a, c)
    decreases |b| + |c|
  {
    if a != [] {
      if b[0] == c[0] && Subsequence(b[1..], c[1..]) {
        if a[0] == b[0] && Subsequence(a[1..], b[1..]) {
          SubsequenceTransitive(a[1..], b[1..], c[1..]);
        } else {
          SubsequenceTransitive(a, b[1..], c[1..]);
        }
      } else {
        SubsequenceTransitive(a, b, c[1..]);
      }
    }
  }

  lemma {:induction false} RemovingLeavesSubsequence<T>(s: seq<T>, k: nat)
    requires k < |s|
    ensures Subsequence(RemoveAt(s, k), s)
  {
    if k == 0 {
      assert RemoveAt(s, 0) == s[1..];
      SubsequenceSelf(s[1..]);
      SubsequenceWeakens(s[1..], s);
    } else {
      RemovingLeavesSubsequence(s[1..], k - 1);
      assert RemoveAt(s, k) == [s[0]] + RemoveAt(s[1..], k - 1);
      assert RemoveAt(s, k)[1..] == RemoveAt(s[1..], k - 1);
    }
  }

  lemma {:induction false} LastDurationIsNotOnTheTimeline(positions: seq<real>, durations: seq<int>, x: int, start: int)
    requires |positions| == |durations| > 0
    ensures Timeline(positions, durations[|durations| - 1 := x], start) == Timeline(positions, durations, start)
    decreases |positions|
  {
    var changed := durations[|durations| - 1 := x];
    if |positions| > 1 {
      LastDurationIsNotOnTheTimeline(positions[1..], durations[1..], x, start + durations[0]);
      assert changed[1..] == durations[1..][|durations| - 2 := x];
    } else {
      assert positions[1..] == [] && changed[1..] == [] && durations[1..] == [];
    }
  }

  lemma {:induction false} MergingInsideKeepsTimes(positions: seq<real>, durations: seq<int>, k: nat, start: int)
    requires |positions| == |durations| && 1 <= k < |positions|
    ensures var carried := durations[k - 1 := durations[k - 1] + durations[k]];
            Timeline(RemoveAt(positions, k), RemoveAt(carried, k), start) ==
                RemoveAt(Timeline(positions, durations, start), k)
    decreases k
  {
    var carried := durations[k - 1 := durations[k - 1] + durations[k]];
    var before := Timeline(positions, durations, start);
    var fewer, left := RemoveAt(positions, k), RemoveAt(carried, k);
    assert fewer[0] == positions[0] && fewer[1..] == RemoveAt(positions[1..], k - 1);
    if k == 1 {
      assert left == [durations[0] + durations[1]] + durations[2..];
      assert fewer[1..] == positions[2..] == positions[1..][1..];
      assert left[1..] == durations[2..] == durations[1..][1..];
      assert Timeline(fewer, left, start) == [before[0]] + before[2..];
    } else {
      MergingInsideKeepsTimes(positions[1..], durations[1..], k - 1, start + durations[0]);
      assert left[1..] == RemoveAt(durations[1..][k - 2 := durations[k - 1] + durations[k]], k - 1);
      assert before[1..] == Timeline(positions[1..], durations[1..], start + durations[0]);
      assert Timeline(fewer, left, start) == [before[0]] + RemoveAt(before[1..], k - 1);
    }
    assert Timeline(fewer, left, start) == RemoveAt(before, k);
  }

  lemma {:induction false} TotalAppends(a: seq<int>, b: seq<int>)
    ensures Total(a + b) == Total(a) + Total(b)
  {
    if a == [] {
      assert a + b == b;
    } else {
      TotalAppends(a[1..], b);
      assert (a + b)[1..] == a[1..] + b;
    }
  }

  lemma TotalUpdates(d: seq<int>, i: nat, x: int)
    requires i < |d|
    ensures Total(d[i := x]) == Total(d) - d[i] + x
    ensures Total(RemoveAt(d, i)) == Total(d) - d[i]
  {
    assert d == d[..i] + ([d[i]] + d[i + 1..]);
    assert d[i := x] == d[..i] + ([x] + d[i + 1..]);
    TotalAppends(d[..i], [d[i]] + d[i + 1..]);
    TotalAppends(d[..i], [x] + d[i + 1..]);
    TotalAppends([d[i]], d[i + 1..]);
    TotalAppends([x], d[i + 1..]);
    TotalAppends(d[..i], d[i + 1..]);
  }

  lemma MergeInside(s: Strokes, i: nat, start: int)
    requires Paired(s) && i + 1 < |s.positions|
    ensures var r := MergeAt(s, i);
            Subsequence(Timeline(r.positions, r.durations, start), Timeline(s.positions, s.durations, start))
  {
    hide Timeline, Subsequence, RemoveAt;
    assert (i + 1) % |s.positions| == i + 1;
    MergingInsideKeepsTimes(s.positions, s.durations, i + 1, start);
    RemovingLeavesSubsequence(Timeline(s.positions, s.durations, start), i + 1);
  }

  lemma TimelineTail(positions: seq<real>, durations: seq<int>, start: int)
    requires |positions| == |durations| > 0
    ensures RemoveAt(Timeline(positions, durations, start), 0) ==
              Timeline(positions[1..], durations[1..], start + durations[0])
  {}

  /** Merging across the seam drops the first turning point; the cycle starts later by its stroke. */
  lemma MergeAcrossSeam(s: Strokes, start: int)
    requires Paired(s) && 1 < |s.positions|
    ensures var r := MergeAt(s, |s.positions| - 1);
            Subsequence(Timeline(r.positions, r.durations, start + s.durations[0]),
                        Timeline(s.positions, s.durations, start))
  {
    hide Subsequence, Timeline;
    var n := |s.positions|;
    assert (n - 1 + 1) % n == 0;
    var carried := s.durations[n - 1 := s.durations[n - 1] + s.durations[0]];
    LastDurationIsNotOnTheTimeline(s.positions, s.durations, carried[n - 1], start);
    assert RemoveAt(s.positions, 0) == s.positions[1..] && RemoveAt(carried, 0) == carried[1..];
    TimelineTail(s.positions, carried, start);
    RemovingLeavesSubsequence(Timeline(s.positions, s.durations, start), 0);
  }

  lemma MergeConservesTotal(s: Strokes, i: nat)
    requires Paired(s) && i < |s.positions| && 1 < |s.positions|
    ensures Total(MergeAt(s, i).durations) == Total(s.durations)
  {
    hide Total, RemoveAt;
    var next := (i + 1) % |s.positions|;
    assert next != i;
    TotalUpdates(s.durations, i, s.durations[i] + s.durations[next]);
    TotalUpdates(s.durations[i := s.durations[i] + s.durations[next]], next, 0);
  }

  /** One merge: time is conserved and each surviving turning point keeps its moment. */
  lemma MergeAtKeepsTimes(s: Strokes, i: nat, start: int) returns (begin: int)
    requires Paired(s) && i < |s.positions| && 1 < |s.positions|
    ensures var r := MergeAt(s, i);
            && Total(r.durations) == Total(s.durations)
            && Subsequence(Timeline(r.positions, r.durations, begin), Timeline(s.positions, s.durations, start))
  {
    hide Timeline, Subsequence, RemoveAt, Total;
    MergeConservesTotal(s, i);
    if i == |s.positions| - 1 {
      begin := start + s.durations[0];
      MergeAcrossSeam(s, start);
    } else {
      begin := start;
      MergeInside(s, i, start);
    }
  }

  /**
    Merging conserves the clip's time, drops turning points without moving any
    of the others in position or time, and ends with every stroke felt or at
    the fewest turning points allowed.
   */
  lemma {:induction false} MergingKeepsTimes(s: Strokes, start: int) returns (begin: int)
    requires Paired(s)
    ensures var r := Merged(s);
            && Total(r.durations) == Total(s.durations)
            && Subsequence(Timeline(r.positions, r.durations, begin), Timeline(s.positions, s.durations, start))
            && (AllFelt(r.positions) || |r.positions| <= MIN_TURNING_POINTS)
            && (MIN_TURNING_POINTS <= |s.positions| ==> MIN_TURNING_POINTS <= |r.positions|)
            && (r == s <==> |s.positions| <= MIN_TURNING_POINTS || AllFelt(s.positions))
    decreases |s.positions|
  {
    begin := start;
    var i := FirstShort(s.positions, 0);
    if |s.positions| <= MIN_TURNING_POINTS || i == |s.positions| {
      SubsequenceSelf(Timeline(s.positions, s.durations, start));
    } else {
      var once := MergeAt(s, i);
      var first := MergeAtKeepsTimes(s, i, start);
      begin := MergingKeepsTimes(once, first);
      SubsequenceTransitive(Timeline(Merged(s).positions, Merged(s).durations, begin),
                            Timeline(once.positions, once.durations, first),
                            Timeline(s.positions, s.durations, start));
      assert |Merged(s).positions| < |s.positions|;
    }
  }

  /** Stroke `k` of the cycle moves less than 22. */
  predicate TooSmall(positions: seq<real>, k: nat)
    requires k < |positions|
  {
    -22.0 < positions[(k + 1) % |positions|] - positions[k] < 22.0
  }

  /** Where the `j`th of the remaining turning points was before `gone` was removed. */
  function Before(j: nat, gone: nat): nat { if j < gone then j else j + 1 }

  /**
    From one cycle to the next: of more than five turning points, the one that
    the first stroke too small leads into is gone, and its time went to that stroke.
   */
  predicate Loses(a: Strokes, b: Strokes, k: nat) {
    && Paired(a) && Paired(b) && 5 < |a.positions| == |b.positions| + 1 && k < |a.positions|
    && TooSmall(a.positions, k) && (forall j: nat | j < k :: !TooSmall(a.positions, j))
    && var gone := (k + 1) % |a.positions|;
    && (forall j: nat | j < |b.positions| :: b.positions[j] == a.positions[Before(j, gone)])
    && (forall j: nat | j < |b.positions| ::
          b.durations[j] == a.durations[Before(j, gone)] + if Before(j, gone) == k then a.durations[gone] else 0)
  }

  lemma TooSmallIsShort(positions: seq<real>, k: nat)
    requires k < |positions|
    ensures TooSmall(positions, k) <==> Amplitude(positions, k) < MIN_AMPLITUDE
  {}

  lemma FirstShortIsTooSmall(positions: seq<real>)
    ensures var i := FirstShort(positions, 0);
            && (i < |positions| ==> TooSmall(positions, i))
            && (forall j: nat | j < i :: !TooSmall(positions, j))
  {
    var i := FirstShort(positions, 0);
    hide TooSmall, Amplitude, FirstShort;
    forall j: nat | j < i ensures !TooSmall(positions, j) {
      TooSmallIsShort(positions, j);
    }
    if i < |positions| {
      TooSmallIsShort(positions, i);
    }
  }

  lemma MergeLoses(s: Strokes)
    requires Paired(s) && 5 < |s.positions| && FirstShort(s.positions, 0) < |s.positions|
    ensures Loses(s, MergeAt(s, FirstShort(s.positions, 0)), FirstShort(s.positions, 0))
  {
    FirstShortIsTooSmall(s.positions);
    hide TooSmall, FirstShort;
    var i := FirstShort(s.positions, 0);
    var gone := (i + 1) % |s.positions|;
    assert gone != i;
  }

  /** A chain of cycles, each losing one turning point to its first stroke too small. */
  predicate Chain(cycles: seq<Strokes>, strokes: seq<nat>) {
    && |cycles| == |strokes| + 1
    && forall i: nat | i < |strokes| :: Loses(cycles[i], cycles[i + 1], strokes[i])
  }

  /** Merging follows such a chain until five points are left or no stroke is too small. */
  lemma {:induction false} MergedByLosing(s: Strokes) returns (cycles: seq<Strokes>, strokes: seq<nat>)
    requires Paired(s)
    ensures Chain(cycles, strokes) && cycles[0] == s && cycles[|strokes|] == Merged(s)
    ensures |Merged(s).positions| <= 5 || forall k: nat | k < |Merged(s).positions| :: !TooSmall(Merged(s).positions, k)
    decreases |s.positions|
  {
    var i := FirstShort(s.positions, 0);
    if |s.positions| <= MIN_TURNING_POINTS || i == |s.positions| {
      cycles, strokes := [s], [];
      FirstShortIsTooSmall(s.positions);
    } else {
      var rest, later := MergedByLosing(MergeAt(s, i));
      cycles, strokes := [s] + rest, [i] + later;
      MergeLoses(s);
      hide Loses, Merged, MergeAt, TooSmall, FirstShort;
      forall j: nat | j < |strokes| ensures Loses(cycles[j], cycles[j + 1], strokes[j]) {
        if j > 0 {
          assert Loses(rest[j - 1], rest[j], later[j - 1]);
        }
      }
    }
  }

  lemma LosesOneWay(a: Strokes, b: Strokes, c: Strokes, k: nat, m: nat)
    requires Loses(a, b, k) && Loses(a, c, m)
    ensures k == m && b == c
  {
    hide TooSmall;
    assert k == m;
    assert b.positions == c.positions && b.durations == c.durations;
  }

  /** A clip with a stroke too small, whose first merge leaves none, loses only that turning point. */
  lemma OneMergeIsEnough(s: Strokes, next: Strokes, k: nat)
    requires Loses(s, next, k) && forall j: nat | j < |next.positions| :: !TooSmall(next.positions, j)
    ensures Merged(s) == next
  {
    var i := FirstShort(s.positions, 0);
    FirstShortIsTooSmall(s.positions);
    assert i <= k;
    MergeLoses(s);
    LosesOneWay(s, next, MergeAt(s, i), k, i);
    FirstShortIsTooSmall(next.positions);
    hide TooSmall;
    assert FirstShort(next.positions, 0) == |next.positions|;
  }

  // ----- Shortening -----

  /** Round half up, as the language's rounding does. */
  function Round(x: real): int { (x + 0.5).Floor }

  function Min(x: real, y: real): real { if x < y then x else y }
  function Max(x: real, y: real): real { if x < y then y else x }

  /** The duration at which a stroke moves at the floor velocity. */
  function AtFloor(amplitude: real): real { amplitude / FLOOR_VELOCITY * 1000.0 }

  predicate IsRoot(root: real, x: real) { 0.0 <= root && root * root == x }

  /** `root` is the square root inside the acceleration bound. */
  function ShortenedStroke(amplitude: real, millis: int, root: real): int {
    var shortest := Max(MIN_REVERSAL_GAP, root * 1000.0);
    Round(Min(millis as real, Max(AtFloor(amplitude), shortest)))
  }

  /** What shortening aims at: the floor velocity, but never under the reversal gap. */
  function Target(amplitude: real): real { Max(AtFloor(amplitude), MIN_REVERSAL_GAP) }

  lemma Quadratic(root: real, amplitude: real)
    requires 0.0 <= amplitude && IsRoot(root, 6.0 * amplitude / ACCEL_BUDGET)
    ensures root * 1000.0 <= Target(amplitude)
  {
    if root <= 0.45 {
    } else {
      assert root * root > 0.45 * root && 0.45 * root > 0.45 * 0.45;
      assert 6.0 * amplitude > 0.2025 * ACCEL_BUDGET;
      assert amplitude == root * root * ACCEL_BUDGET / 6.0;
      assert root * (root * (ACCEL_BUDGET / 6.0)) >= root * FLOOR_VELOCITY by {
        assert root * (ACCEL_BUDGET / 6.0) > 0.45 * (ACCEL_BUDGET / 6.0) > FLOOR_VELOCITY;
      }
      assert root * (root * (ACCEL_BUDGET / 6.0)) == root * root * ACCEL_BUDGET / 6.0;
      assert amplitude >= root * FLOOR_VELOCITY;
    }
  }

  /** The acceleration bound never decides a duration, whatever the amplitude. */
  lemma AccelerationBoundNeverBinds(amplitude: real, millis: int, root: real)
    requires 0.0 <= amplitude && IsRoot(root, 6.0 * amplitude / ACCEL_BUDGET)
    ensures ShortenedStroke(amplitude, millis, root) == Round(Min(millis as real, Target(amplitude)))
  {
    Quadratic(root, amplitude);
  }

  function Shortened(amplitude: real, millis: int): int { Round(Min(millis as real, Target(amplitude))) }

  /** A duration only ever shrinks, and never by a positive one becoming nothing. */
  lemma ShorteningOnlyShrinks(amplitude: real, millis: int)
    ensures Shortened(amplitude, millis) <= millis
    ensures 0 < millis ==> 0 < Shortened(amplitude, millis)
    ensures millis as real <= Target(amplitude) ==> Shortened(amplitude, millis) == millis
  {}

  /** Chord speed below the floor; a duration of nothing counts as infinitely fast. */
  predicate Slow(amplitude: real, millis: int) {
    millis != 0 && amplitude / millis as real * 1000.0 < FLOOR_VELOCITY
  }

  lemma SlowMeans(amplitude: real, millis: int)
    requires 0 < millis
    ensures Slow(amplitude, millis) <==> AtFloor(amplitude) < millis as real
  {
    var d := millis as real;
    var speed := amplitude / d;
    assert speed * d == amplitude;
    assert AtFloor(amplitude) == amplitude * (1000.0 / 42.0);
    if speed * 1000.0 < 42.0 {
      assert speed < 0.042;
      assert speed * d < 0.042 * d;
    } else {
      assert speed >= 0.042;
      assert speed * d >= 0.042 * d;
    }
  }

  predicate RoundsUp(x: real) { 0.5 <= x - x.Floor as real }

  lemma RoundIs(x: real)
    ensures Round(x) == if RoundsUp(x) then x.Floor + 1 else x.Floor
  {
    var below := x.Floor;
    assert below as real <= x < below as real + 1.0;
    if RoundsUp(x) {
      assert (below + 1) as real <= x + 0.5 < (below + 2) as real;
    } else {
      assert below as real <= x + 0.5 < (below + 1) as real;
    }
  }

  lemma RoundedAgainst(floor: real, millis: int)
    ensures floor < Round(Min(millis as real, floor)) as real <==> floor < millis as real && RoundsUp(floor)
  {
    hide Round;
    if floor <= millis as real {
      RoundIs(floor);
      assert Min(millis as real, floor) == floor;
    } else {
      RoundIs(millis as real);
      assert (millis as real).Floor == millis;
    }
  }

  /**
    A felt stroke ends at or above the floor velocity exactly if it was there
    already or its floor duration does not round up.
   */
  lemma ShorteningReachesTheFloorExactly(amplitude: real, millis: int)
    requires MIN_AMPLITUDE <= amplitude && 0 < millis
    ensures !Slow(amplitude, Shortened(amplitude, millis)) <==>
              !Slow(amplitude, millis) || !RoundsUp(AtFloor(amplitude))
  {
    FeltTarget(amplitude);
    hide Slow, AtFloor, Target, RoundsUp, Round, Min;
    ShorteningOnlyShrinks(amplitude, millis);
    SlowMeans(amplitude, millis);
    SlowMeans(amplitude, Shortened(amplitude, millis));
    RoundedAgainst(AtFloor(amplitude), millis);
  }

  lemma FeltTarget(amplitude: real)
    requires MIN_AMPLITUDE <= amplitude
    ensures Target(amplitude) == AtFloor(amplitude)
  {
    assert AtFloor(amplitude) == amplitude * (1000.0 / 42.0) >= 22.0 * (1000.0 / 42.0) > 450.0;
  }

  /** The smallest stroke kept, once slow, stays slow: 524 ms for 22% is under 42%/s. */
  lemma SmallestStrokeStaysSlow(millis: int)
    requires 524 <= millis
    ensures Shortened(22.0, millis) == 524
    ensures Slow(22.0, Shortened(22.0, millis))
  {
    assert AtFloor(22.0) == 22000.0 / 42.0;
    assert 523.5 < 22000.0 / 42.0 < 524.0;
    assert Target(22.0) == 22000.0 / 42.0;
    SlowMeans(22.0, 524);
  }

  /** The duration shortening aims at, for a stroke of this travel: 42% a second, but never under 450 ms. */
  function Aim(amplitude: real): real {
    if amplitude * 1000.0 / 42.0 >= 450.0 then amplitude * 1000.0 / 42.0 else 450.0
  }

  /** A stroke within its aim keeps its time; a longer one gets the nearest millisecond, up from halfway. */
  lemma ShortenedMeans(amplitude: real, millis: int)
    ensures millis as real <= Aim(amplitude) ==> Shortened(amplitude, millis) == millis
    ensures millis as real > Aim(amplitude) ==> -0.5 < Shortened(amplitude, millis) as real - Aim(amplitude) <= 0.5
  {
    assert Target(amplitude) == Aim(amplitude);
    hide Target, Aim;
  }

  /** The same with the acceleration bound of the script, the square root of 6A/2600 in seconds. */
  lemma ShortenedWithBound(amplitude: real, millis: int, root: real)
    requires 0.0 <= amplitude && 0.0 <= root && root * root == 6.0 * amplitude / 2600.0
    ensures ShortenedStroke(amplitude, millis, root) == Shortened(amplitude, millis)
    ensures root * 1000.0 <= Aim(amplitude)
  {
    AccelerationBoundNeverBinds(amplitude, millis, root);
    Quadratic(root, amplitude);
  }

  /** A stroke is fast enough exactly if it takes no time, or travels 42 for each of its seconds. */
  lemma FastExactly(positions: seq<real>, i: nat, millis: int)
    requires i < |positions| && !TooSmall(positions, i)
    ensures var travel := positions[(i + 1) % |positions|] - positions[i];
            !Slow(Amplitude(positions, i), millis) <==>
            millis == 0 || (millis > 0
                            && (travel * 1000.0 >= 42.0 * millis as real || travel * -1000.0 >= 42.0 * millis as real))
  {
    var amplitude := Amplitude(positions, i);
    if millis != 0 {
      var d := millis as real;
      var speed := amplitude / d;
      assert speed * d == amplitude;
      if millis > 0 {
        assert speed * 1000.0 < 42.0 <==> speed * 1000.0 * d < 42.0 * d;
      } else {
        assert speed >= 0.042 ==> speed * d < 0.0;
      }
    }
  }
}

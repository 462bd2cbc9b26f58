/**
  From repaired strokes to a playable loop, and the whole pipeline over a clip.
 */
module ClipLoop {
  import opened ClipRepair

  const CYCLE_FLOOR: int := 6600
  const CYCLE_CEILING: int := 12000

  function ToStrokes(points: seq<Point>): (r: Strokes)
    ensures Paired(r) && |r.positions| == (if points == [] then 0 else |points| - 1)
  {
    var n := if points == [] then 0 else |points| - 1;
    Strokes(seq(n, i requires 0 <= i < n => points[i].position),
            seq(n, i requires 0 <= i < n => points[i + 1].time - points[i].time))
  }

  function ShortenSlow(s: Strokes): (r: Strokes)
    requires Paired(s)
    ensures Paired(r) && r.positions == s.positions
    ensures forall i | 0 <= i < |s.positions| :: r.durations[i] == Shortened(Amplitude(s.positions, i), s.durations[i])
  {
    Strokes(s.positions,
            seq(|s.durations|,
                i requires 0 <= i < |s.durations| => Shortened(Amplitude(s.positions, i), s.durations[i])))
  }

  /** No speed is undefined, and the slowest one is a number. */
  predicate Finite(s: Strokes)
    requires Paired(s)
  {
    && (forall i | 0 <= i < |s.positions| :: s.durations[i] == 0 ==> Amplitude(s.positions, i) != 0.0)
    && (exists i :: 0 <= i < |s.durations| && s.durations[i] != 0)
  }

  predicate Accepted(s: Strokes)
    requires Paired(s)
  {
    && MIN_TURNING_POINTS <= |s.positions|
    && Finite(s)
    && (forall i | 0 <= i < |s.positions| :: !Slow(Amplitude(s.positions, i), s.durations[i]))
    && AllFelt(s.positions)
  }

  lemma {:induction false} TotalOfNaturals(d: seq<int>)
    requires forall i | 0 <= i < |d| :: 0 <= d[i]
    ensures 0 <= Total(d)
    ensures (exists i :: 0 <= i < |d| && d[i] != 0) ==> 0 < Total(d)
  {
    if d != [] {
      TotalOfNaturals(d[1..]);
      if exists i :: 0 <= i < |d| && d[i] != 0 {
        var i :| 0 <= i < |d| && d[i] != 0;
        assert i > 0 ==> d[1..][i - 1] != 0;
      }
    }
  }

  /** An accepted clip takes time, and none of it backwards. */
  lemma AcceptedTakesTime(s: Strokes)
    requires Paired(s) && Accepted(s)
    ensures forall i | 0 <= i < |s.durations| :: 0 <= s.durations[i]
    ensures 0 < Total(s.durations)
  {
    forall i | 0 <= i < |s.durations| ensures 0 <= s.durations[i] {
      var amplitude := Amplitude(s.positions, i);
      assert !Slow(amplitude, s.durations[i]) && MIN_AMPLITUDE <= amplitude;
      NegativeIsSlow(amplitude, s.durations[i]);
    }
    TotalOfNaturals(s.durations);
  }

  lemma NegativeIsSlow(amplitude: real, millis: int)
    requires 0.0 <= amplitude
    ensures millis < 0 ==> Slow(amplitude, millis)
  {
    if millis < 0 {
      var d := millis as real;
      var speed := amplitude / d;
      assert speed * d == amplitude;
      assert 0.0 < speed ==> speed * d < 0.0;
    }
  }

  // ----- Building the loop -----

  /** The fewest whole phrases reaching the cycle floor. */
  function Repeats(phrase: int): (r: int)
    requires 0 < phrase
    ensures 1 <= r && CYCLE_FLOOR <= r * phrase
    ensures r == 1 || (r - 1) * phrase < CYCLE_FLOOR
  {
    var r := (CYCLE_FLOOR + phrase - 1) / phrase;
    DivisionCovers(phrase);
    r
  }

  lemma DivisionCovers(phrase: int)
    requires 0 < phrase
    ensures var r := (CYCLE_FLOOR + phrase - 1) / phrase;
            && 1 <= r && CYCLE_FLOOR <= r * phrase && (r - 1) * phrase < CYCLE_FLOOR
  {
    var r := (CYCLE_FLOOR + phrase - 1) / phrase;
    assert CYCLE_FLOOR + phrase - 1 == r * phrase + (CYCLE_FLOOR + phrase - 1) % phrase;
    assert (r - 1) * phrase == r * phrase - phrase;
    assert r <= 0 ==> r * phrase <= 0;
  }

  /** The place in a phrase of `n` strokes. */
  function Around(k: nat, n: nat): (r: nat)
    requires 0 < n
    ensures r < n
  {
    k % n
  }

  /** The loop after `m` strokes, counted around the phrase. */
  function LoopUpTo(s: Strokes, m: nat): (r: seq<Point>)
    requires Paired(s) && s.positions != []
    ensures |r| == m + 1
  {
    if m == 0 then [Point(0, s.positions[0])]
    else
      var before := LoopUpTo(s, m - 1);
      var n := |s.positions|;
      before + [Point(before[m - 1].time + s.durations[Around(m - 1, n)], s.positions[Around(m, n)])]
  }

  lemma NextAround(k: nat, n: nat)
    requires 0 < n
    ensures Around(k + 1, n) == if Around(k, n) + 1 == n then 0 else Around(k, n) + 1
  {
    if k % n + 1 < n {
      assert k + 1 == k / n * n + (k % n + 1);
      RemainderIs(k + 1, n, k / n, k % n + 1);
    } else {
      assert k + 1 == (k / n + 1) * n;
      RemainderIs(k + 1, n, k / n + 1, 0);
    }
  }

  lemma AroundInside(base: nat, i: nat, n: nat)
    requires i < n && Around(base, n) == 0
    ensures Around(base + i, n) == i
  {
    assert base == base / n * n;
    RemainderIs(base + i, n, base / n, i);
  }

  lemma Times(a: int, b: int, n: int)
    requires 0 < n
    ensures a <= b ==> a * n <= b * n
  {}

  lemma RemainderIs(k: int, n: int, q: int, rem: int)
    requires 0 < n && 0 <= rem < n && k == q * n + rem
    ensures k % n == rem
  {
    assert k == k / n * n + k % n;
    Times(k / n + 1, q, n);
    Times(q + 1, k / n, n);
  }

  function Following(i: nat, n: nat): nat
    requires i < n
  {
    if i + 1 == n then 0 else i + 1
  }

  lemma FollowingIs(i: nat, n: nat)
    requires i < n
    ensures (i + 1) % n == Following(i, n)
  {}

  lemma LoopExtends(s: Strokes, base: nat, i: nat)
    requires Paired(s) && i < |s.positions| && Around(base, |s.positions|) == 0
    ensures var m := base + i;
            LoopUpTo(s, m + 1) ==
            LoopUpTo(s, m) + [Point(LoopUpTo(s, m)[m].time + s.durations[i], s.positions[Following(i, |s.positions|)])]
  {
    AroundInside(base, i, |s.positions|);
    NextAround(base + i, |s.positions|);
    hide Around;
  }

  /** The strokes in `r` phrases of `n`. */
  function Span(r: nat, n: nat): nat { if r == 0 then 0 else Span(r - 1, n) + n }

  lemma NextSpan(r: nat, n: nat)
    ensures Span(r + 1, n) == Span(r, n) + n
  {}

  lemma EmptySpan(s: Strokes)
    requires Paired(s) && s.positions != []
    ensures LoopUpTo(s, Span(0, |s.positions|)) == [Point(0, s.positions[0])]
    ensures Span(0, |s.positions|) == 0
  {}

  lemma {:induction false} SpanIsWhole(r: nat, n: nat)
    requires 0 < n
    ensures Around(Span(r, n), n) == 0
  {
    if r > 0 {
      SpanIsWhole(r - 1, n);
      var k := Span(r - 1, n);
      assert k == k / n * n;
      assert k + n == (k / n + 1) * n;
      RemainderIs(k + n, n, k / n + 1, 0);
    }
  }

  /** One phrase after `base` strokes already built. */
  method AddPhrase(s: Strokes, start: seq<Point>, elapsed: int, ghost base: nat)
    returns (points: seq<Point>, cycle: int)
    requires Paired(s) && s.positions != [] && Around(base, |s.positions|) == 0
    requires start == LoopUpTo(s, base) && elapsed == start[base].time
    ensures points == LoopUpTo(s, base + |s.positions|) && cycle == points[base + |s.positions|].time
  {
    hide LoopUpTo, Around;
    points, cycle := start, elapsed;
    var i := 0;
    while i < |s.positions|
      invariant 0 <= i <= |s.positions|
      invariant points == LoopUpTo(s, base + i) && cycle == points[base + i].time
    {
      LoopExtends(s, base, i);
      FollowingIs(i, |s.positions|);
      cycle := cycle + s.durations[i];
      points := points + [Point(cycle, s.positions[(i + 1) % |s.positions|])];
      i := i + 1;
    }
  }

  /** Repeat the phrase, stroke by stroke, until the cycle floor. */
  method BuildPoints(s: Strokes) returns (points: seq<Point>, cycle: int, repeats: nat)
    requires Paired(s) && Accepted(s)
    ensures points == Built(s)
    ensures cycle == points[|points| - 1].time
  {
    AcceptedTakesTime(s);
    NotEmpty(s);
    hide Accepted, Total, Repeats, Around, LoopUpTo, Span;
    repeats := Repeats(Total(s.durations));
    points, cycle := [Point(0, s.positions[0])], 0;
    EmptySpan(s);
    var r := 0;
    while r < repeats
      invariant 0 <= r <= repeats
      invariant points == LoopUpTo(s, Span(r, |s.positions|)) && cycle == points[Span(r, |s.positions|)].time
    {
      SpanIsWhole(r, |s.positions|);
      points, cycle := AddPhrase(s, points, cycle, Span(r, |s.positions|));
      NextSpan(r, |s.positions|);
      r := r + 1;
    }
  }

  // ----- What a built loop is -----

  lemma {:induction false} LoopIs(s: Strokes, m: nat, j: nat)
    requires Paired(s) && s.positions != [] && j <= m
    ensures LoopUpTo(s, m)[j].position == s.positions[Around(j, |s.positions|)]
    ensures j < m ==> LoopUpTo(s, m)[j + 1].time == LoopUpTo(s, m)[j].time + s.durations[Around(j, |s.positions|)]
    decreases m
  {
    if m == 0 {
      assert Around(0, |s.positions|) == 0;
    } else if j < m {
      hide Around;
      LoopIs(s, m - 1, j);
    }
  }

  /** The loop returns to where it began, and its times increase if every duration is positive. */
  lemma LoopIsClosed(s: Strokes, r: nat)
    requires Paired(s) && s.positions != []
    ensures var points := LoopUpTo(s, Span(r, |s.positions|)); points[|points| - 1].position == points[0].position
    ensures (forall i | 0 <= i < |s.durations| :: 0 < s.durations[i]) ==>
              var points := LoopUpTo(s, Span(r, |s.positions|));
              forall j | 0 <= j < |points| - 1 :: points[j].time < points[j + 1].time
  {
    var n := |s.positions|;
    var m := Span(r, n);
    SpanIsWhole(r, n);
    LoopIs(s, m, m);
    LoopIs(s, m, 0);
    assert Around(0, n) == 0;
    forall j | 0 <= j < m
      ensures LoopUpTo(s, m)[j + 1].time == LoopUpTo(s, m)[j].time + s.durations[Around(j, n)]
    {
      LoopIs(s, m, j);
    }
  }

  lemma {:induction false} LapSoFar(s: Strokes, base: nat, i: nat)
    requires Paired(s) && s.positions != [] && i <= |s.positions| && Around(base, |s.positions|) == 0
    ensures LoopUpTo(s, base + i)[base + i].time == LoopUpTo(s, base)[base].time + Total(s.durations[..i])
    decreases i
  {
    if i > 0 {
      LapSoFar(s, base, i - 1);
      LoopExtends(s, base, i - 1);
      hide LoopUpTo, Around;
      assert s.durations[..i] == s.durations[..i - 1] + [s.durations[i - 1]];
      TotalAppends(s.durations[..i - 1], [s.durations[i - 1]]);
    }
  }

  lemma OneMoreTime(r: int, phrase: int)
    ensures r * phrase == (r - 1) * phrase + phrase
  {}

  /** A loop of `r` phrases lasts `r` times the phrase. */
  lemma {:induction false} LoopLasts(s: Strokes, r: nat)
    requires Paired(s) && s.positions != []
    ensures var m := Span(r, |s.positions|); LoopUpTo(s, m)[m].time == r * Total(s.durations)
    decreases r
  {
    if r > 0 {
      LoopLasts(s, r - 1);
      SpanIsWhole(r - 1, |s.positions|);
      LapSoFar(s, Span(r - 1, |s.positions|), |s.positions|);
      assert s.durations[..|s.positions|] == s.durations;
      hide LoopUpTo, Around, Total;
      OneMoreTime(r, Total(s.durations));
    }
  }

  // ----- The pipeline -----

  datatype Outcome = Kept(points: seq<Point>) | Dropped

  function Built(s: Strokes): seq<Point>
    requires Paired(s) && Accepted(s)
  {
    AcceptedTakesTime(s);
    LoopUpTo(s, Span(Repeats(Total(s.durations)), |s.positions|))
  }

  /** The strokes left after merging and shortening. */
  function Repaired(points: seq<Point>): (s: Strokes)
    ensures Paired(s)
  {
    ShortenSlow(Merged(ToStrokes(points)))
  }

  /** Merge, shorten, reject, build, and check the cycle ceiling. */
  function Repair(points: seq<Point>): Outcome {
    var s := Repaired(points);
    if !Accepted(s) then Dropped
    else
      var built := Built(s);
      if CYCLE_CEILING < built[|built| - 1].time then Dropped else Kept(built)
  }

  lemma ShorteningIsIdempotent(amplitude: real, millis: int)
    ensures Shortened(amplitude, Shortened(amplitude, millis)) == Shortened(amplitude, millis)
  {
    hide Target;
    var target := Target(amplitude);
    var r := Shortened(amplitude, millis);
    RoundedAgainst(target, millis);
    if target < r as real {
      assert Min(millis as real, target) == target && Min(r as real, target) == target;
    } else {
      assert Min(r as real, target) == r as real;
    }
  }

  predicate Settled(s: Strokes)
    requires Paired(s)
  {
    forall i | 0 <= i < |s.positions| :: Shortened(Amplitude(s.positions, i), s.durations[i]) == s.durations[i]
  }

  lemma ShortenedIsSettled(s: Strokes)
    requires Paired(s)
    ensures Settled(ShortenSlow(s))
  {
    forall i | 0 <= i < |s.positions|
      ensures Shortened(Amplitude(s.positions, i), ShortenSlow(s).durations[i]) == ShortenSlow(s).durations[i]
    {
      ShorteningIsIdempotent(Amplitude(s.positions, i), s.durations[i]);
    }
  }

  /** A phrase written out `m` strokes long. */
  function Laps(s: Strokes, m: nat): (r: Strokes)
    requires Paired(s) && s.positions != []
    ensures Paired(r) && |r.positions| == m
    ensures forall j | 0 <= j < m :: r.positions[j] == s.positions[Around(j, |s.positions|)]
    ensures forall j | 0 <= j < m :: r.durations[j] == s.durations[Around(j, |s.positions|)]
  {
    var n := |s.positions|;
    Strokes(seq(m, j requires 0 <= j < m => s.positions[Around(j, n)]),
            seq(m, j requires 0 <= j < m => s.durations[Around(j, n)]))
  }

  lemma ReadingBackALoop(s: Strokes, m: nat)
    requires Paired(s) && s.positions != []
    ensures ToStrokes(LoopUpTo(s, m)) == Laps(s, m)
  {
    var read := ToStrokes(LoopUpTo(s, m));
    forall j | 0 <= j < m
      ensures read.positions[j] == Laps(s, m).positions[j] && read.durations[j] == Laps(s, m).durations[j]
    {
      LoopIs(s, m, j);
    }
    assert read.positions == Laps(s, m).positions && read.durations == Laps(s, m).durations;
  }

  lemma LapAmplitude(s: Strokes, m: nat, j: nat)
    requires Paired(s) && s.positions != [] && j < m && Around(m, |s.positions|) == 0
    ensures Amplitude(Laps(s, m).positions, j) == Amplitude(s.positions, Around(j, |s.positions|))
  {
    var n := |s.positions|;
    NextAround(j, n);
    FollowingIs(j, m);
    FollowingIs(Around(j, n), n);
    assert Around(0, n) == 0;
    hide Laps, Around;
  }

  lemma FirstLap(s: Strokes, m: nat, i: nat)
    requires Paired(s) && i < |s.positions| <= m
    ensures Laps(s, m).durations[i] == s.durations[i]
  {
    assert Around(i, |s.positions|) == i;
  }

  lemma LapsStayAccepted(s: Strokes, m: nat)
    requires Paired(s) && Accepted(s) && Settled(s) && |s.positions| <= m && Around(m, |s.positions|) == 0
    ensures Accepted(Laps(s, m)) && Settled(Laps(s, m)) && AllFelt(Laps(s, m).positions)
  {
    hide Slow, Shortened, Amplitude, Around, Laps;
    var n := |s.positions|;
    var laps := Laps(s, m);
    forall j | 0 <= j < m
      ensures Amplitude(laps.positions, j) == Amplitude(s.positions, Around(j, n))
    {
      LapAmplitude(s, m, j);
    }
    var i :| 0 <= i < n && s.durations[i] != 0;
    FirstLap(s, m, i);
    assert laps.durations[i] != 0;
  }

  lemma FeltIsUnmerged(s: Strokes)
    requires Paired(s) && AllFelt(s.positions)
    ensures Merged(s) == s
  {}

  lemma SettledIsUnshortened(s: Strokes)
    requires Paired(s) && Settled(s)
    ensures ShortenSlow(s) == s
  {
    assert ShortenSlow(s).durations == s.durations;
  }

  lemma AroundOnce(k: nat, n: nat)
    requires 0 < n && k <= n
    ensures Around(k, n) == if k == n then 0 else k
  {}

  lemma LapIndex(s: Strokes, m: nat, k: nat)
    requires Paired(s) && s.positions != [] && Around(m, |s.positions|) == 0 && k <= m && 0 < m
    ensures Laps(s, m).positions[Around(k, m)] == s.positions[Around(k, |s.positions|)]
    ensures k < m ==> Laps(s, m).durations[Around(k, m)] == s.durations[Around(k, |s.positions|)]
  {
    hide Around, Laps;
    AroundOnce(0, |s.positions|);
    AroundOnce(k, m);
  }

  /** A loop and the same loop read back agree point by point. */
  lemma {:induction false} LapsLoopAlike(s: Strokes, m: nat, k: nat)
    requires Paired(s) && s.positions != [] && Around(m, |s.positions|) == 0 && k <= m && 0 < m
    ensures LoopUpTo(Laps(s, m), k) == LoopUpTo(s, k)
    decreases k
  {
    hide Around, Laps;
    LapIndex(s, m, k);
    if k == 0 {
      LapIndex(s, m, 0);
      Beginning(m);
      Beginning(|s.positions|);
    } else {
      LapsLoopAlike(s, m, k - 1);
      LapIndex(s, m, k - 1);
    }
  }

  lemma Beginning(n: nat)
    requires 0 < n
    ensures Around(0, n) == 0
  {}

  lemma LapsFillTheCycle(s: Strokes)
    requires Paired(s) && Accepted(s)
    ensures 0 < Total(s.durations)
    ensures var m := Span(Repeats(Total(s.durations)), |s.positions|);
            |s.positions| <= m && Around(m, |s.positions|) == 0 && CYCLE_FLOOR <= Total(Laps(s, m).durations)
  {
    AcceptedTakesTime(s);
    var r := Repeats(Total(s.durations));
    var n := |s.positions|;
    var m := Span(r, n);
    SpanIsWhole(r, n);
    LoopLasts(s, r);
    assert Span(r, n) == Span(r - 1, n) + n;
    LapsLoopAlike(s, m, m);
    LoopLasts(Laps(s, m), 1);
    assert Span(1, m) == m by { assert Span(0, m) == 0; }
  }

  /** A whole cycle already reaching the floor is repeated once. */
  lemma OneLapIsEnough(s: Strokes, m: nat)
    requires Paired(s) && Accepted(s) && 0 < m && Around(m, |s.positions|) == 0 && Accepted(Laps(s, m))
    requires CYCLE_FLOOR <= Total(Laps(s, m).durations)
    ensures Built(Laps(s, m)) == LoopUpTo(s, m)
  {
    AcceptedTakesTime(Laps(s, m));
    LapsLoopAlike(s, m, m);
    hide LoopUpTo, Accepted, Laps, Total, Repeats, Around;
    OneRepeat(Total(Laps(s, m).durations));
    assert Span(1, m) == m by { assert Span(0, m) == 0; }
  }

  lemma OneRepeat(phrase: int)
    requires CYCLE_FLOOR <= phrase
    ensures Repeats(phrase) == 1
  {
    var r := Repeats(phrase);
    assert r != 1 ==> phrase <= (r - 1) * phrase;
  }

  /** A clip the repair keeps is a fixed point: repairing it again changes nothing. */
  lemma RepairIsIdempotent(points: seq<Point>)
    requires Repair(points).Kept?
    ensures Repair(Repair(points).points) == Repair(points)
  {
    var s := ShortenSlow(Merged(ToStrokes(points)));
    ShortenedIsSettled(Merged(ToStrokes(points)));
    hide ShortenSlow, Merged, ToStrokes, Accepted, LoopUpTo, Laps, Settled, AllFelt, Total, Around;
    LapsFillTheCycle(s);
    var m := Span(Repeats(Total(s.durations)), |s.positions|);
    assert Repair(points).points == LoopUpTo(s, m);
    ReadingBackALoop(s, m);
    LapsStayAccepted(s, m);
    FeltIsUnmerged(Laps(s, m));
    SettledIsUnshortened(Laps(s, m));
    NotEmpty(s);
    OneLapIsEnough(s, m);
  }

  lemma NotEmpty(s: Strokes)
    requires Paired(s) && Accepted(s)
    ensures 0 < |s.positions|
  {}

  /**
    What is kept: closed, within the cycle bounds, at or above the floor on
    every stroke, and as few repeats as reach it.
   */
  lemma KeptLoopIsPlayable(points: seq<Point>)
    requires Repair(points).Kept?
    ensures var kept := Repair(points).points;
            var last := kept[|kept| - 1];
            && kept[0].time == 0 && last.position == kept[0].position
            && CYCLE_FLOOR <= last.time <= CYCLE_CEILING
            && Accepted(ToStrokes(kept))
    ensures var phrase := Total(Repaired(points).durations);
            var last := Repair(points).points[|Repair(points).points| - 1];
            && 0 < phrase && last.time % phrase == 0
            && (last.time == phrase || last.time - phrase < CYCLE_FLOOR)
  {
    var s := ShortenSlow(Merged(ToStrokes(points)));
    ShortenedIsSettled(Merged(ToStrokes(points)));
    LapsFillTheCycle(s);
    var r := Repeats(Total(s.durations));
    var m := Span(r, |s.positions|);
    LoopIsClosed(s, r);
    LoopLasts(s, r);
    LoopStart(s, m);
    ReadingBackALoop(s, m);
    LapsStayAccepted(s, m);
    WholePhrases(r, Total(s.durations));
  }

  lemma WholePhrases(r: int, phrase: int)
    requires 0 < phrase && r == Repeats(phrase)
    ensures (r * phrase) % phrase == 0
    ensures r * phrase == phrase || r * phrase - phrase < CYCLE_FLOOR
  {
    RemainderIs(r * phrase, phrase, r, 0);
    assert (r - 1) * phrase == r * phrase - phrase;
  }

  lemma {:induction false} LoopStart(s: Strokes, m: nat)
    requires Paired(s) && s.positions != []
    ensures LoopUpTo(s, m)[0] == Point(0, s.positions[0])
  {
    if m > 0 {
      LoopStart(s, m - 1);
    }
  }

  // ----- When the kept times increase -----

  predicate Increasing(points: seq<Point>) { forall j | 0 <= j < |points| - 1 :: points[j].time < points[j + 1].time }

  predicate AllPositive(durations: seq<int>) { forall i | 0 <= i < |durations| :: 0 < durations[i] }

  lemma AtLeastOneLap(s: Strokes, r: nat, i: nat)
    requires Paired(s) && i < |s.positions| && 1 <= r
    ensures i < Span(r, |s.positions|)
  {
    assert Span(r, |s.positions|) == Span(r - 1, |s.positions|) + |s.positions|;
  }

  /** A loop's times increase exactly if every duration of its phrase is positive. */
  lemma LoopIncreasesExactly(s: Strokes, r: nat)
    requires Paired(s) && s.positions != [] && 1 <= r
    ensures Increasing(LoopUpTo(s, Span(r, |s.positions|))) <==> AllPositive(s.durations)
  {
    var n := |s.positions|;
    var m := Span(r, n);
    var loop := LoopUpTo(s, m);
    LoopIsClosed(s, r);
    if Increasing(loop) {
      forall i | 0 <= i < n ensures 0 < s.durations[i] {
        AtLeastOneLap(s, r, i);
        AroundOnce(i, n);
        LoopIs(s, m, i);
        assert loop[i].time < loop[i + 1].time;
      }
    }
  }

  lemma ShorteningKeepsSign(s: Strokes)
    requires Paired(s)
    ensures AllPositive(ShortenSlow(s).durations) <==> AllPositive(s.durations)
  {
    hide Shortened, Amplitude, ShortenSlow;
    forall i | 0 <= i < |s.durations|
      ensures 0 < ShortenSlow(s).durations[i] <==> 0 < s.durations[i]
    {
      ShorteningOnlyShrinks(Amplitude(s.positions, i), s.durations[i]);
    }
  }

  /** The times of a kept clip strictly increase if and only if every merged stroke takes time. */
  lemma KeptTimesIncreaseExactly(points: seq<Point>)
    requires Repair(points).Kept?
    ensures Increasing(Repair(points).points) <==> AllPositive(Repaired(points).durations)
    ensures Increasing(Repair(points).points) <==> AllPositive(Merged(ToStrokes(points)).durations)
  {
    var s := Repaired(points);
    AcceptedTakesTime(s);
    NotEmpty(s);
    hide Accepted, Merged, Increasing, AllPositive, ToStrokes, LoopUpTo, Span, Total;
    LoopIncreasesExactly(s, Repeats(Total(s.durations)));
    ShorteningKeepsSign(Merged(ToStrokes(points)));
  }

  lemma MergeAtKeepsPositive(s: Strokes, i: nat)
    requires Paired(s) && i < |s.positions| && 1 < |s.positions| && AllPositive(s.durations)
    ensures AllPositive(MergeAt(s, i).durations)
  {}

  lemma {:induction false} MergingKeepsPositive(s: Strokes)
    requires Paired(s) && AllPositive(s.durations)
    ensures AllPositive(Merged(s).durations)
    decreases |s.positions|
  {
    hide AllPositive;
    var i := FirstShort(s.positions, 0);
    if MIN_TURNING_POINTS < |s.positions| && i < |s.positions| {
      MergeAtKeepsPositive(s, i);
      MergingKeepsPositive(MergeAt(s, i));
    }
  }

  /** A clip whose times increase is kept, if at all, with increasing times. */
  lemma IncreasingClipsStayIncreasing(points: seq<Point>)
    requires Repair(points).Kept? && Increasing(points)
    ensures Increasing(Repair(points).points)
  {
    KeptTimesIncreaseExactly(points);
    hide Repair, Repaired, Merged;
    assert AllPositive(ToStrokes(points).durations);
    MergingKeepsPositive(ToStrokes(points));
  }

  /** A clip with two turning points at one time: half-span strokes, the last of them instantaneous. */
  function Instantaneous(): seq<Point> {
    [Point(0, 0.0), Point(1000, 50.0), Point(2000, 0.0), Point(3000, 50.0), Point(4000, 0.0), Point(5000, 50.0),
     Point(5000, 0.0)]
  }

  lemma InstantaneousStrokes(s: Strokes)
    requires s == ToStrokes(Instantaneous())
    ensures s.positions == [0.0, 50.0, 0.0, 50.0, 0.0, 50.0]
    ensures s.durations == [1000, 1000, 1000, 1000, 1000, 0]
  {
    var p := Instantaneous();
    assert |s.positions| == 6;
  }

  lemma HalfSpanStroke(millis: int)
    requires 0 <= millis <= 1000
    ensures Shortened(50.0, millis) == millis && !Slow(50.0, millis)
  {
    assert AtFloor(50.0) == 50000.0 / 42.0 > 1000.0;
    ShorteningOnlyShrinks(50.0, millis);
    if 0 < millis {
      SlowMeans(50.0, millis);
    }
  }

  lemma SettledStrokesPass(s: Strokes)
    requires Paired(s) && |s.positions| == 6 && (forall i | 0 <= i < 6 :: Amplitude(s.positions, i) == 50.0)
    requires (forall i | 0 <= i < 6 :: 0 <= s.durations[i] <= 1000) && 0 < s.durations[0]
    ensures Merged(s) == s && ShortenSlow(s) == s && Accepted(s)
  {
    hide Shortened, Slow, Amplitude;
    forall i | 0 <= i < 6 ensures Shortened(50.0, s.durations[i]) == s.durations[i] && !Slow(50.0, s.durations[i]) {
      HalfSpanStroke(s.durations[i]);
    }
    FeltIsUnmerged(s);
    SettledIsUnshortened(s);
  }

  /** Such a clip is kept, and its kept times stand still: an instantaneous stroke counts as fast. */
  lemma InstantaneousClipIsKept()
    ensures Repair(Instantaneous()).Kept? && !Increasing(Repair(Instantaneous()).points)
  {
    var s := ToStrokes(Instantaneous());
    InstantaneousStrokes(s);
    hide ToStrokes, Instantaneous, Merged, ShortenSlow, Accepted, Increasing;
    SettledStrokesPass(s);
    hide Amplitude;
    assert Repaired(Instantaneous()) == s;
    FiveSeconds(s.durations);
    LoopLasts(s, 2);
    RepeatsTwice();
    hide LoopUpTo, Total, Repeats;
    assert Repair(Instantaneous()).Kept?;
    assert !AllPositive(s.durations) by { assert s.durations[5] == 0; }
    KeptTimesIncreaseExactly(Instantaneous());
  }

  lemma RepeatsTwice()
    ensures Repeats(5000) == 2
  {}

  lemma FiveSeconds(d: seq<int>)
    requires d == [1000, 1000, 1000, 1000, 1000, 0]
    ensures Total(d) == 5000
  {
    hide Total;
    var pair, two := [1000, 1000], [1000, 0];
    TotalOfTwo(1000, 1000);
    TotalOfTwo(1000, 0);
    TotalAppends(pair, two);
    TotalAppends(pair, pair + two);
    assert d == pair + (pair + two);
  }

  lemma TotalOfTwo(a: int, b: int)
    ensures Total([a, b]) == a + b
  {
    assert Total([]) == 0;
    assert [b][1..] == [];
    assert Total([b]) == b + Total([b][1..]);
    assert [a, b][1..] == [b];
    assert Total([a, b]) == a + Total([a, b][1..]);
  }

  // ----- What is kept -----

  /** Five turning points or more, every stroke felt and fast enough, and not all of it in no time. */
  predicate Playable(s: Strokes)
    requires Paired(s)
  {
    var n := |s.positions|;
    && n >= 5 && (exists i :: 0 <= i < n && s.durations[i] > 0)
    && forall i: nat | i < n ::
         var travel := s.positions[(i + 1) % n] - s.positions[i];
         && !TooSmall(s.positions, i)
         && (s.durations[i] == 0
             || (s.durations[i] > 0
                 && (travel * 1000.0 >= 42.0 * s.durations[i] as real
                     || travel * -1000.0 >= 42.0 * s.durations[i] as real)))
  }

  lemma AcceptedExactly(s: Strokes)
    requires Paired(s)
    ensures Accepted(s) <==> Playable(s)
  {
    hide Amplitude, Slow;
    forall i: nat | i < |s.positions|
      ensures TooSmall(s.positions, i) <==> Amplitude(s.positions, i) < MIN_AMPLITUDE
      ensures !TooSmall(s.positions, i) ==> Amplitude(s.positions, i) != 0.0
    {
      TooSmallIsShort(s.positions, i);
    }
    hide TooSmall;
    forall i: nat | i < |s.positions| && !TooSmall(s.positions, i)
      ensures var travel := s.positions[(i + 1) % |s.positions|] - s.positions[i];
              !Slow(Amplitude(s.positions, i), s.durations[i]) <==>
              s.durations[i] == 0
              || (s.durations[i] > 0
                  && (travel * 1000.0 >= 42.0 * s.durations[i] as real
                      || travel * -1000.0 >= 42.0 * s.durations[i] as real))
    {
      FastExactly(s.positions, i, s.durations[i]);
    }
  }

  /** `r` whole phrases are the fewest lasting at least 6600 ms. */
  predicate Fewest(r: int, phrase: int) { 1 <= r && r * phrase >= 6600 && (r == 1 || (r - 1) * phrase < 6600) }

  /**
    A clip is kept if and only if its merged and shortened strokes are playable
    and the fewest repeats of at least 6600 ms stay within 12000 ms.
   */
  lemma KeptExactly(points: seq<Point>)
    ensures Repair(points).Kept? <==>
            && Playable(Repaired(points))
            && exists r ::
                Fewest(r, Total(Repaired(points).durations)) && r * Total(Repaired(points).durations) <= 12000
  {
    var s := Repaired(points);
    AcceptedExactly(s);
    if Accepted(s) {
      AcceptedTakesTime(s);
      BuiltLasts(s);
      FewestIsRepeats(Total(s.durations));
    }
    hide Playable, Accepted, Repaired, Total, Fewest, Built;
  }

  lemma BuiltLasts(s: Strokes)
    requires Paired(s) && Accepted(s)
    ensures 0 < Total(s.durations)
    ensures Built(s) != [] && Built(s)[|Built(s)| - 1].time == Repeats(Total(s.durations)) * Total(s.durations)
  {
    AcceptedTakesTime(s);
    LoopLasts(s, Repeats(Total(s.durations)));
    hide Accepted, Total, LoopUpTo;
  }

  lemma FewestIsRepeats(phrase: int)
    requires 0 < phrase
    ensures Fewest(Repeats(phrase), phrase) && forall r | Fewest(r, phrase) :: r == Repeats(phrase)
  {
    forall r | Fewest(r, phrase) ensures r == Repeats(phrase) {
      OneFewest(phrase, r, Repeats(phrase));
    }
  }

  lemma Longer(a: int, b: int, phrase: int)
    requires a <= b && 0 < phrase
    ensures a * phrase <= b * phrase
  {}

  lemma OneFewest(phrase: int, a: int, b: int)
    requires 0 < phrase && Fewest(a, phrase) && Fewest(b, phrase)
    ensures a == b
  {
    if a < b {
      Longer(a, b - 1, phrase);
    } else if b < a {
      Longer(b, a - 1, phrase);
    }
  }
}

/**
  A continuous score: an outer band, a travel rate, a stroke-width envelope and
  up to three modulation layers, or a counted phrase. Percentages are integers.
 */
module LayeredScore {
  import opened Options

  datatype Layer = Layer(axis: string, amount: int, period: int, phase: int, shape: string, lowRate: int,
                         inverted: bool)

  datatype Stroke = Stroke(bottom: int, top: int, count: int, rate: int)

  /**
    Counted stroke pairs, or counted regional cycles with the direction of each;
    `joins` says their travel reverses only at real turns.
   */
  datatype Phrase = Strokes(groups: seq<Stroke>) | Regions(groups: seq<Stroke>, cycles: seq<string>, joins: bool)

  datatype DirectionalPace = DirectionalPace(up: int, down: int)

  /** Zero `ceiling` stands for the outer width. */
  datatype Score = Score(phrase: Option<Phrase>, pace: Option<DirectionalPace>, min: int, max: int, speed: int,
                         floor: int, ceiling: int, anchor: int, memory: int, paceVariation: int, mode: string,
                         softness: int, hold: int, seed: nat, loopCycles: int, layers: seq<Layer>)

  /** The saved speed limits, already normalised. */
  datatype Limits = Limits(speedMin: int, speedMax: int)

  function Width(s: Score): int { s.max - s.min }

  function EffectiveCeiling(s: Score): int { if s.ceiling == 0 then Width(s) else s.ceiling }

  function Min(a: int, b: int): int { if a < b then a else b }
  function Max(a: int, b: int): int { if a < b then b else a }

  // ----- Layers by axis -----

  predicate IsAxis(axis: string) { axis == "range" || axis == "center" || axis == "pace" }

  predicate DistinctAxes(layers: seq<Layer>) {
    forall i, j | 0 <= i < j < |layers| :: layers[i].axis != layers[j].axis
  }

  /** Where the first layer on an axis sits, or the length. */
  function IndexOf(layers: seq<Layer>, axis: string): (r: nat)
    ensures r <= |layers|
    ensures r < |layers| ==> layers[r].axis == axis
    ensures forall j | 0 <= j < r :: layers[j].axis != axis
  {
    if layers == [] then 0 else if layers[0].axis == axis then 0 else 1 + IndexOf(layers[1..], axis)
  }

  /** The first layer on an axis. */
  function On(layers: seq<Layer>, axis: string): Option<Layer> {
    var i := IndexOf(layers, axis);
    if i < |layers| then Some(layers[i]) else None
  }

  /** How far an axis moves; an absent layer moves nothing. */
  function AmountOn(layers: seq<Layer>, axis: string): int {
    var l := On(layers, axis);
    if l.Some? then l.value.amount else 0
  }

  /** Drop the layers of some axes. */
  function Without(layers: seq<Layer>, axes: set<string>): (r: seq<Layer>)
    ensures |r| <= |layers|
    ensures forall i | 0 <= i < |r| :: r[i].axis !in axes && r[i] in layers
  {
    if layers == [] then []
    else
      var rest := Without(layers[1..], axes);
      if layers[0].axis in axes then rest else [layers[0]] + rest
  }

  lemma {:induction false} WithoutOn(layers: seq<Layer>, axes: set<string>, axis: string)
    ensures On(Without(layers, axes), axis) == if axis in axes then None else On(layers, axis)
  {
    if layers != [] {
      WithoutOn(layers[1..], axes, axis);
      OnFirst(layers[0], layers[1..], axis);
      OnFirst(layers[0], Without(layers[1..], axes), axis);
      assert layers == [layers[0]] + layers[1..];
      hide On;
    }
  }

  lemma OnFirst(l: Layer, rest: seq<Layer>, axis: string)
    ensures On([l] + rest, axis) == if l.axis == axis then Some(l) else On(rest, axis)
  {
    assert ([l] + rest)[1..] == rest;
  }

  lemma {:induction false} WithoutTwice(layers: seq<Layer>, axes: set<string>)
    requires forall l | l in layers :: l.axis !in axes
    ensures Without(layers, axes) == layers
  {
    if layers != [] {
      assert layers[0] in layers;
      WithoutTwice(layers[1..], axes);
      assert layers == [layers[0]] + layers[1..];
    }
  }

  lemma {:induction false} WithoutAppends(a: seq<Layer>, b: seq<Layer>, axes: set<string>)
    ensures Without(a + b, axes) == Without(a, axes) + Without(b, axes)
  {
    if a == [] {
      assert a + b == b;
    } else {
      assert (a + b)[1..] == a[1..] + b;
      WithoutAppends(a[1..], b, axes);
    }
  }

  lemma {:induction false} WithoutStaysDistinct(layers: seq<Layer>, axes: set<string>)
    requires DistinctAxes(layers)
    ensures DistinctAxes(Without(layers, axes))
  {
    if layers != [] {
      WithoutStaysDistinct(layers[1..], axes);
      var rest := Without(layers[1..], axes);
      forall i | 0 <= i < |rest| ensures rest[i].axis != layers[0].axis {
        assert rest[i] in layers[1..];
        var j :| 0 <= j < |layers[1..]| && layers[1..][j] == rest[i];
        assert layers[j + 1] == rest[i];
      }
    }
  }

  lemma {:induction false} OnAppend(layers: seq<Layer>, layer: Layer, axis: string)
    ensures On(layers + [layer], axis) ==
            if On(layers, axis).Some? then On(layers, axis) else if layer.axis == axis then Some(layer) else None
  {
    if layers == [] {
      assert layers + [layer] == [layer];
      assert [layer][1..] == [];
    } else {
      assert (layers + [layer])[1..] == layers[1..] + [layer];
      OnAppend(layers[1..], layer, axis);
    }
  }

  lemma {:induction false} OnUpdate(layers: seq<Layer>, i: nat, layer: Layer, axis: string)
    requires i < |layers| && layer.axis == layers[i].axis && i == IndexOf(layers, layer.axis)
    ensures On(layers[i := layer], axis) == if axis == layer.axis then Some(layer) else On(layers, axis)
    decreases |layers|
  {
    if i > 0 {
      assert layers[i := layer][1..] == layers[1..][i - 1 := layer];
      OnUpdate(layers[1..], i - 1, layer, axis);
    } else {
      assert layers[i := layer][1..] == layers[1..];
    }
  }

  /** A layer of a list with distinct axes is the one on its axis. */
  lemma {:induction false} OnItself(layers: seq<Layer>, i: nat)
    requires DistinctAxes(layers) && i < |layers|
    ensures On(layers, layers[i].axis) == Some(layers[i])
    decreases |layers|
  {
    if i > 0 {
      OnItself(layers[1..], i - 1);
      assert layers[0].axis != layers[i].axis;
    }
  }

  // ----- Validation -----

  predicate LayerBounded(l: Layer) {
    && IsAxis(l.axis)
    && 0 <= l.amount <= 100 && 2 <= l.period <= 32 && 0 <= l.phase <= 100
    && 0 <= l.lowRate <= 100 && (l.axis != "pace" ==> l.lowRate == 0)
    && l.shape in {"", "wave", "drift", "alternate"}
  }

  predicate LayersValid(layers: seq<Layer>) {
    |layers| <= 3 && DistinctAxes(layers) && forall l | l in layers :: LayerBounded(l)
  }

  predicate StrokeValid(g: Stroke, min: int, max: int, previousTop: int) {
    && min <= g.bottom && g.top <= max && 10 <= g.top - g.bottom
    && 1 <= g.count <= 8 && 1 <= g.rate <= 100 && 10 <= previousTop - g.bottom
  }

  function TotalCount(groups: seq<Stroke>): int {
    if groups == [] then 0 else groups[0].count + TotalCount(groups[1..])
  }

  function LowestBottom(groups: seq<Stroke>, start: int): (r: int)
    ensures r <= start && (forall g | g in groups :: r <= g.bottom)
            && (r == start || exists g :: g in groups && g.bottom == r)
    decreases |groups|
  {
    if groups == [] then start
    else
      var earlier := LowestBottom(groups[..|groups| - 1], start);
      assert groups == groups[..|groups| - 1] + [groups[|groups| - 1]];
      Min(earlier, groups[|groups| - 1].bottom)
  }

  function HighestTop(groups: seq<Stroke>, start: int): (r: int)
    ensures start <= r && (forall g | g in groups :: g.top <= r)
            && (r == start || exists g :: g in groups && g.top == r)
    decreases |groups|
  {
    if groups == [] then start
    else
      var earlier := HighestTop(groups[..|groups| - 1], start);
      assert groups == groups[..|groups| - 1] + [groups[|groups| - 1]];
      Max(earlier, groups[|groups| - 1].top)
  }

  function ShortestSpan(groups: seq<Stroke>, start: int): (r: int)
    ensures r <= start && (forall g | g in groups :: r <= g.top - g.bottom)
            && (r == start || exists g :: g in groups && g.top - g.bottom == r)
    decreases |groups|
  {
    if groups == [] then start
    else
      var earlier := ShortestSpan(groups[..|groups| - 1], start);
      var last := groups[|groups| - 1];
      assert groups == groups[..|groups| - 1] + [last];
      Min(earlier, last.top - last.bottom)
  }

  predicate PhraseValid(s: Score) {
    s.phrase.Some? ==>
      var p := s.phrase.value;
      && (forall l | l in s.layers :: l.axis == "pace")
      && 1 <= |p.groups| <= 6 && TotalCount(p.groups) <= 24
      && (match p
          case Strokes(groups) =>
            forall i | 0 <= i < |groups| ::
                StrokeValid(groups[i], s.min, s.max, groups[if i == 0 then |groups| - 1 else i - 1].top)
          case Regions(groups, cycles, joins) =>
            && joins && |cycles| == |groups|
            && (forall i | 0 <= i < |groups| :: StrokeValid(groups[i], s.min, s.max, groups[i].top))
            && (forall i | 0 <= i < |cycles| :: cycles[i] == "up_down" || cycles[i] == "down_up"))
      && s.min == LowestBottom(p.groups, 100) && s.max == HighestTop(p.groups, 0)
  }

  predicate ControlsValid(s: Score, limits: Limits) {
    && 0 <= s.min <= 90 && s.min + 10 <= s.max <= 100
    && 10 <= s.floor <= Width(s) && 0 <= s.anchor <= 100 && 2 <= s.memory <= 32 && 0 <= s.paceVariation <= 40
    && s.seed != 0
    && limits.speedMin <= s.speed <= limits.speedMax
    && (s.pace.Some? ==> 1 <= s.pace.value.up <= 100 && 1 <= s.pace.value.down <= 100)
    && s.mode in {"", "waves", "drift"} && 0 <= s.softness <= 100 && 0 <= s.hold <= 100
    && (s.ceiling != 0 ==> s.floor <= s.ceiling <= Width(s))
    && (s.loopCycles != 0 ==> 4 <= s.loopCycles <= 64)
  }

  /** A score the engine accepts. */
  predicate Valid(s: Score, limits: Limits) {
    PhraseValid(s) && ControlsValid(s, limits) && LayersValid(s.layers)
  }
}

/**
  Named geometries and counted phrases: coupled edits of the outer band, the
  stroke-width envelope, the anchor and the two spatial layers.
 */
module LayeredGeometry {
  import opened Options
  import opened LayeredScore

  predicate Named(geometry: string) {
    geometry in {"full_slider", "full_band", "alternate_ends", "full_and_tip", "full_and_base", "tip_anchor",
                 "base_anchor", "centered", "wander"}
  }

  function Replaced(layers: seq<Layer>, layer: Layer): seq<Layer> { Without(layers, {layer.axis}) + [layer] }

  function AnchorOf(geometry: string): int {
    if geometry == "tip_anchor" || geometry == "full_and_tip" then 100
    else if geometry == "base_anchor" || geometry == "full_and_base" then 0 else 50
  }

  /** Apply a geometry; an unknown one, or a band too narrow for it, is refused. */
  function Shaped(s: Score, geometry: string): Option<Score> {
    if geometry == "" then Some(s)
    else if !Named(geometry) then None
    else
      var s := if geometry == "full_slider" then s.(min := 0, max := 100) else s;
      var width := Width(s);
      match geometry
      case "alternate_ends" =>
        if width < 20 then None
        else
          Some(s.(floor := Max(10, Min(15, width / 3)), ceiling := Min(30, width / 2),
                  layers := Replaced(Without(s.layers, {"range"}), Layer("center", 100, 8, 0, "alternate", 0, false))))
      case "full_and_tip" => FullAndLocal(s, 100)
      case "full_and_base" => FullAndLocal(s, 0)
      case "tip_anchor" => Some(Anchored(s, 100))
      case "base_anchor" => Some(Anchored(s, 0))
      case "centered" => Some(Anchored(s, 50))
      case "wander" =>
        Some(s.(floor := Min(20, width), ceiling := width, mode := "drift",
                layers := Replaced(Without(s.layers, {"range"}), Layer("center", 35, 14, 17, "drift", 0, false))))
      case _ =>
        Some(s.(floor := width, ceiling := width, layers := Without(Without(s.layers, {"range"}), {"center"})))
  }

  function FullAndLocal(s: Score, anchor: int): Option<Score> {
    if Width(s) < 20 then None
    else
      Some(s.(anchor := anchor, floor := Min(20, Width(s) / 2), ceiling := Width(s),
              layers := Replaced(Without(s.layers, {"center"}), Layer("range", 100, 8, 0, "alternate", 0, false))))
  }

  function Anchored(s: Score, anchor: int): Score {
    s.(floor := Min(s.floor, Width(s)), ceiling := if s.ceiling != 0 then Min(s.ceiling, Width(s)) else 0,
       anchor := anchor, layers := Without(s.layers, {"center"}))
  }

  predicate FullAlternation(layers: seq<Layer>, axis: string) {
    On(layers, axis).Some? && On(layers, axis).value.amount == 100 && On(layers, axis).value.shape == "alternate"
  }

  predicate Full(s: Score) {
    s.floor == Width(s) && s.ceiling == Width(s) && forall l | l in s.layers && l.axis != "pace" :: l.amount == 0
  }

  /** The validator of a named geometry, read off the resulting score. */
  predicate Conforms(s: Score, geometry: string) {
    match geometry
    case "full_slider" => Full(s) && s.min == 0 && s.max == 100
    case "full_band" => Full(s)
    case "alternate_ends" =>
      s.floor <= s.ceiling && s.ceiling <= Width(s) / 2 && FullAlternation(s.layers, "center")
          && AmountOn(s.layers, "range") == 0
    case "full_and_tip" => FullConforms(s, 100)
    case "full_and_base" => FullConforms(s, 0)
    case "tip_anchor" => s.anchor == 100 && AmountOn(s.layers, "center") == 0
    case "base_anchor" => s.anchor == 0 && AmountOn(s.layers, "center") == 0
    case "centered" => s.anchor == 50 && AmountOn(s.layers, "center") == 0
    case _ => true
  }

  predicate FullConforms(s: Score, anchor: int) {
    && s.anchor == anchor && s.ceiling == Width(s) && s.floor < s.ceiling
    && FullAlternation(s.layers, "range") && AmountOn(s.layers, "center") == 0
  }

  lemma ReplacedOn(layers: seq<Layer>, layer: Layer, axis: string)
    ensures On(Replaced(layers, layer), axis) == if axis == layer.axis then Some(layer) else On(layers, axis)
  {
    WithoutOn(layers, {layer.axis}, axis);
    OnAppend(Without(layers, {layer.axis}), layer, axis);
  }

  lemma ReplacedTwice(layers: seq<Layer>, layer: Layer, gone: string)
    requires gone != layer.axis
    ensures var once := Replaced(Without(layers, {gone}), layer); Replaced(Without(once, {gone}), layer) == once
  {
    var kept := Without(Without(layers, {gone}), {layer.axis});
    StillGone(layers, {gone}, {layer.axis});
    WithoutAppends(kept, [layer], {gone});
    WithoutTwice([layer], {gone});
    WithoutTwice(kept, {gone});
    WithoutAppends(kept, [layer], {layer.axis});
    WithoutTwice(kept, {layer.axis});
    assert Without([layer], {layer.axis}) == [];
  }

  lemma {:induction false} StillGone(layers: seq<Layer>, one: set<string>, two: set<string>)
    ensures forall l | l in Without(Without(layers, one), two) :: l.axis !in one && l.axis !in two
  {
    var inner := Without(layers, one);
    forall l | l in Without(inner, two) ensures l.axis !in one && l.axis !in two {
      assert l in inner;
    }
  }

  lemma WithoutAgain(layers: seq<Layer>, axes: set<string>)
    ensures Without(Without(layers, axes), axes) == Without(layers, axes)
  {
    WithoutTwice(Without(layers, axes), axes);
  }

  /** The envelope's order: nothing under ten, nothing wider than the band. */
  predicate Enveloped(s: Score) { 10 <= s.floor <= EffectiveCeiling(s) <= Width(s) }

  /** What a score brings to a geometry edit, even after its outer band was narrowed below its envelope. */
  predicate Shapeable(s: Score) {
    && 10 <= Width(s) && 10 <= s.floor && (s.ceiling == 0 || s.floor <= s.ceiling)
    && forall l | l in s.layers :: IsAxis(l.axis)
  }

  /** What a geometry leaves alone. */
  predicate SameElsewhere(a: Score, b: Score) {
    && a.phrase == b.phrase && a.pace == b.pace && a.speed == b.speed && a.memory == b.memory
    && a.paceVariation == b.paceVariation
    && a.softness == b.softness && a.hold == b.hold && a.seed == b.seed && a.loopCycles == b.loopCycles
    && On(a.layers, "pace") == On(b.layers, "pace")
  }

  lemma ShapedLayers(s: Score, geometry: string, axis: string)
    requires Shaped(s, geometry).Some? && geometry != ""
    ensures On(Shaped(s, geometry).value.layers, axis) ==
            if axis != "range" && axis != "center" then On(s.layers, axis)
            else if axis == "center" && geometry == "alternate_ends"
                then Some(Layer("center", 100, 8, 0, "alternate", 0, false))
            else if axis == "center" && geometry == "wander" then Some(Layer("center", 35, 14, 17, "drift", 0, false))
            else if axis == "range" && (geometry == "full_and_tip" || geometry == "full_and_base") then
              Some(Layer("range", 100, 8, 0, "alternate", 0, false))
            else if axis == "range" && geometry in {"tip_anchor", "base_anchor", "centered"} then On(s.layers, axis)
            else None
  {
    WithoutOn(s.layers, {"range"}, axis);
    WithoutOn(s.layers, {"center"}, axis);
    WithoutOn(Without(s.layers, {"range"}), {"center"}, axis);
    if geometry == "alternate_ends" {
      ReplacedOn(Without(s.layers, {"range"}), Layer("center", 100, 8, 0, "alternate", 0, false), axis);
    } else if geometry == "wander" {
      ReplacedOn(Without(s.layers, {"range"}), Layer("center", 35, 14, 17, "drift", 0, false), axis);
    } else if geometry == "full_and_tip" || geometry == "full_and_base" {
      ReplacedOn(Without(s.layers, {"center"}), Layer("range", 100, 8, 0, "alternate", 0, false), axis);
    }
    hide Without, On, Replaced;
  }

  lemma OnlyPaceLeft(layers: seq<Layer>)
    requires forall l | l in layers :: IsAxis(l.axis)
    ensures forall l | l in Without(Without(layers, {"range"}), {"center"}) :: l.axis == "pace"
  {
    StillGone(layers, {"range"}, {"center"});
    forall l | l in Without(Without(layers, {"range"}), {"center"}) ensures IsAxis(l.axis) {
      assert l in Without(layers, {"range"});
    }
  }

  lemma FullConformsNow(s: Score, geometry: string)
    requires Shapeable(s) && (geometry == "full_slider" || geometry == "full_band")
    ensures Conforms(Shaped(s, geometry).value, geometry) && Enveloped(Shaped(s, geometry).value)
  {
    OnlyPaceLeft(s.layers);
    hide Without;
  }

  lemma EndsConformNow(s: Score)
    requires Shapeable(s) && Shaped(s, "alternate_ends").Some?
    ensures Conforms(Shaped(s, "alternate_ends").value, "alternate_ends")
            && Enveloped(Shaped(s, "alternate_ends").value)
  {
    ShapedLayers(s, "alternate_ends", "range");
    ShapedLayers(s, "alternate_ends", "center");
    hide Without, On, Replaced;
  }

  lemma LocalConformsNow(s: Score, geometry: string)
    requires Shapeable(s) && (geometry == "full_and_tip" || geometry == "full_and_base") && Shaped(s, geometry).Some?
    ensures Conforms(Shaped(s, geometry).value, geometry) && Enveloped(Shaped(s, geometry).value)
  {
    ShapedLayers(s, geometry, "range");
    ShapedLayers(s, geometry, "center");
    hide Without, On, Replaced;
  }

  lemma AnchoredConformsNow(s: Score, geometry: string)
    requires Shapeable(s) && geometry in {"tip_anchor", "base_anchor", "centered", "wander"}
    ensures Conforms(Shaped(s, geometry).value, geometry) && Enveloped(Shaped(s, geometry).value)
  {
    ShapedLayers(s, geometry, "center");
    hide Without, On, Replaced;
  }

  /**
    A geometry that applies is accepted by its own validator, keeps the envelope
    in order, and touches neither speed nor pace.
   */
  lemma GeometryConforms(s: Score, geometry: string)
    requires Shapeable(s) && Named(geometry) && Shaped(s, geometry).Some?
    ensures Conforms(Shaped(s, geometry).value, geometry)
    ensures Enveloped(Shaped(s, geometry).value)
    ensures SameElsewhere(s, Shaped(s, geometry).value)
  {
    ShapedLayers(s, geometry, "pace");
    if geometry == "full_slider" || geometry == "full_band" {
      FullConformsNow(s, geometry);
    } else if geometry == "alternate_ends" {
      EndsConformNow(s);
    } else if geometry == "full_and_tip" || geometry == "full_and_base" {
      LocalConformsNow(s, geometry);
    } else {
      AnchoredConformsNow(s, geometry);
    }
    hide Conforms, Enveloped, Without, On, Replaced;
  }

  lemma FullIsIdempotent(s: Score, geometry: string)
    requires geometry == "full_slider" || geometry == "full_band"
    ensures Shaped(Shaped(s, geometry).value, geometry) == Shaped(s, geometry)
  {
    hide Without;
    var left := Without(Without(s.layers, {"range"}), {"center"});
    StillGone(s.layers, {"range"}, {"center"});
    WithoutTwice(left, {"range"});
    WithoutTwice(left, {"center"});
  }

  lemma AnchoredIsIdempotent(s: Score, anchor: int)
    ensures Anchored(Anchored(s, anchor), anchor) == Anchored(s, anchor)
  {
    hide Without;
    WithoutAgain(s.layers, {"center"});
  }

  lemma LocalIsIdempotent(s: Score, anchor: int)
    requires FullAndLocal(s, anchor).Some?
    ensures FullAndLocal(FullAndLocal(s, anchor).value, anchor) == FullAndLocal(s, anchor)
  {
    hide Without, Replaced;
    ReplacedTwice(s.layers, Layer("range", 100, 8, 0, "alternate", 0, false), "center");
  }

  lemma EndsIsIdempotent(s: Score)
    requires Shaped(s, "alternate_ends").Some?
    ensures Shaped(Shaped(s, "alternate_ends").value, "alternate_ends") == Shaped(s, "alternate_ends")
  {
    hide Without, Replaced;
    ReplacedTwice(s.layers, Layer("center", 100, 8, 0, "alternate", 0, false), "range");
  }

  lemma WanderIsIdempotent(s: Score)
    ensures Shaped(Shaped(s, "wander").value, "wander") == Shaped(s, "wander")
  {
    hide Without, Replaced;
    ReplacedTwice(s.layers, Layer("center", 35, 14, 17, "drift", 0, false), "range");
  }

  /** Applying a geometry a second time changes nothing. */
  lemma GeometryIsIdempotent(s: Score, geometry: string)
    requires Shaped(s, geometry).Some?
    ensures Shaped(Shaped(s, geometry).value, geometry) == Shaped(s, geometry)
  {
    hide Without, Replaced, FullAndLocal, Anchored;
    if geometry == "alternate_ends" {
      EndsIsIdempotent(s);
    } else if geometry == "wander" {
      WanderIsIdempotent(s);
    } else if geometry == "full_and_tip" || geometry == "full_and_base" {
      LocalIsIdempotent(s, AnchorOf(geometry));
    } else if geometry in {"tip_anchor", "base_anchor", "centered"} {
      AnchoredIsIdempotent(s, AnchorOf(geometry));
    } else if geometry != "" {
      FullIsIdempotent(s, geometry);
    }
  }

  // ----- Counted phrases -----

  /** The band, the envelope and the anchor a phrase implies. */
  function PhraseShaped(s: Score, groups: seq<Stroke>): (r: Score)
    ensures r == s.(min := r.min, max := r.max, floor := r.floor, ceiling := r.ceiling, anchor := r.anchor)
  {
    var low, high := LowestBottom(groups, 100), HighestTop(groups, 0);
    var allBottom := forall g | g in groups :: g.bottom == low;
    var allTop := forall g | g in groups :: g.top == high;
    s.(min := low, max := high, floor := ShortestSpan(groups, 100), ceiling := high - low,
       anchor := if allTop && !allBottom then 100 else if allBottom && !allTop then 0 else s.anchor)
  }

  /** The first pass over the groups: the band and the shortest stroke. */
  method PhraseBounds(groups: seq<Stroke>) returns (low: int, high: int, shortest: int)
    ensures low == LowestBottom(groups, 100) && high == HighestTop(groups, 0) && shortest == ShortestSpan(groups, 100)
  {
    low, high, shortest := 100, 0, 100;
    var i := 0;
    while i < |groups|
      invariant 0 <= i <= |groups|
      invariant low == LowestBottom(groups[..i], 100) && high == HighestTop(groups[..i], 0)
                && shortest == ShortestSpan(groups[..i], 100)
    {
      assert groups[..i + 1][..i] == groups[..i];
      low := Min(low, groups[i].bottom);
      high := Max(high, groups[i].top);
      shortest := Min(shortest, groups[i].top - groups[i].bottom);
      i := i + 1;
    }
    assert groups[..i] == groups;
  }

  /** The second pass: an end shared by every group becomes the anchor, unless both are. */
  method ApplyPhraseGeometry(s: Score, groups: seq<Stroke>) returns (r: Score)
    ensures r == PhraseShaped(s, groups)
  {
    hide LowestBottom, HighestTop, ShortestSpan;
    var low, high, shortest := PhraseBounds(groups);
    var allBottom, allTop := true, true;
    var i := 0;
    while i < |groups|
      invariant 0 <= i <= |groups|
      invariant allBottom <==> forall j | 0 <= j < i :: groups[j].bottom == low
      invariant allTop <==> forall j | 0 <= j < i :: groups[j].top == high
    {
      allBottom := allBottom && groups[i].bottom == low;
      allTop := allTop && groups[i].top == high;
      i := i + 1;
    }
    assert allBottom <==> forall g | g in groups :: g.bottom == low;
    assert allTop <==> forall g | g in groups :: g.top == high;
    r := s.(min := low, max := high, floor := shortest, ceiling := high - low);
    if allTop && !allBottom {
      r := r.(anchor := 100);
    } else if allBottom && !allTop {
      r := r.(anchor := 0);
    }
  }

  /** Groups of strokes the phrase validator can accept, whatever the band. */
  predicate Playable(groups: seq<Stroke>) {
    && 1 <= |groups| && forall g | g in groups :: 0 <= g.bottom && g.top <= 100 && 10 <= g.top - g.bottom
  }

  /** A counted phrase keeps the same order of widths as a geometry, and its band is the tightest around its turns. */
  lemma PhraseIsEnveloped(s: Score, groups: seq<Stroke>)
    requires Playable(groups)
    ensures var r := PhraseShaped(s, groups);
            && Enveloped(r) && 0 <= r.min <= 90 && r.max <= 100
            && (forall g | g in groups :: r.min <= g.bottom && g.top <= r.max && r.floor <= g.top - g.bottom)
            && (exists g :: g in groups && g.bottom == r.min) && (exists g :: g in groups && g.top == r.max)
            && (exists g :: g in groups && g.top - g.bottom == r.floor)
  {
    hide LowestBottom, HighestTop, ShortestSpan;
    var g := groups[0];
    assert g in groups;
    var low, high, short := LowestBottom(groups, 100), HighestTop(groups, 0), ShortestSpan(groups, 100);
    assert low <= g.bottom <= 90 && 10 <= g.top <= high;
    assert exists b :: b in groups && b.bottom == low;
    assert exists t :: t in groups && t.top == high;
    if short == 100 {
      assert g.top - g.bottom == 100;
    }
    var w :| w in groups && w.top - w.bottom == short;
    assert w.top <= high && low <= w.bottom;
  }
}

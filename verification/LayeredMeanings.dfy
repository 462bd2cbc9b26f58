/**
  What geometries, counted phrases and the score's limits come to, in
  percentages.
 */
module LayeredMeanings {
  import opened Options
  import opened SqlOrder
  import opened LayeredScore
  import opened LayeredGeometry
  import opened LayeredLayers
  import opened LayeredEdit
  import opened LayeredLaws

  // ----- Counted phrases -----

  predicate OneTop(groups: seq<Stroke>) { forall a, b | a in groups && b in groups :: a.top == b.top }

  predicate OneBottom(groups: seq<Stroke>) { forall a, b | a in groups && b in groups :: a.bottom == b.bottom }

  /**
    A phrase whose strokes share only the tip is anchored there, one whose
    strokes share only the base there, any other where it was.
   */
  lemma PhraseAnchor(s: Score, groups: seq<Stroke>)
    requires Playable(groups)
    ensures PhraseShaped(s, groups).anchor ==
            if OneTop(groups) && !OneBottom(groups) then 100
            else if OneBottom(groups) && !OneTop(groups) then 0
            else s.anchor
  {
    PhraseIsEnveloped(s, groups);
    var low, high := LowestBottom(groups, 100), HighestTop(groups, 0);
    var b :| b in groups && b.bottom == low;
    var t :| t in groups && t.top == high;
    hide LowestBottom, HighestTop, ShortestSpan;
    assert OneBottom(groups) <==> forall g | g in groups :: g.bottom == low;
    assert OneTop(groups) <==> forall g | g in groups :: g.top == high;
  }

  lemma PhrasedMeans(s: Score, edit: Edit)
    requires edit.phrase.Some? && Phrased(s, edit).Some?
    ensures !ReshapesField(s, edit)
    ensures var r := Phrased(s, edit).value;
            && r == PhraseShaped(s.(phrase := edit.phrase), edit.phrase.value.groups).(layers := OnlyPace(s.layers))
  {
    hide ReshapesField, PhraseShaped;
  }

  /** With a phrase nothing else shapes the field, so the stored anchor and layers are what it starts from. */
  lemma PhraseStage(edit: Edit, current: Score, limits: Limits)
    requires edit.phrase.Some? && Reshaped(edit, current, limits).Some?
    ensures edit.geometry == "" && edit.width.None?
    ensures ControlsOk(edit.controls, edit.changes)
    ensures Timed(edit, current, limits).anchor == current.anchor
            && Timed(edit, current, limits).layers == current.layers
    ensures Reshaped(edit, current, limits) == Phrased(Timed(edit, current, limits), edit)
  {
    var s := Timed(edit, current, limits);
    assert Phrased(s, edit).Some?;
    assert !Specified(edit, "anchor_percent");
    hide Phrased, On, NumberAfter, TextAt, ControlsOk, PhraseShaped, OnlyPace;
    UnshapedIsSame(Phrased(s, edit).value);
  }

  /**
    An accepted phrase is stored, only the pace layer stays beside it, and it
    sets the tightest band, its shortest stroke, its width and its anchor.
   */
  lemma PhraseEditMeans(edit: Edit, current: Score, limits: Limits, seed: nat)
    requires edit.phrase.Some? && Edited(edit, current, limits, seed).Some?
    ensures var next, groups := Edited(edit, current, limits, seed).value, edit.phrase.value.groups;
            && next.phrase == edit.phrase && (forall l | l in next.layers :: l.axis == "pace")
            && (forall g | g in groups :: next.min <= g.bottom && g.top <= next.max && next.floor <= g.top - g.bottom)
            && (exists g :: g in groups && g.bottom == next.min) && (exists g :: g in groups && g.top == next.max)
            && (exists g :: g in groups && g.top - g.bottom == next.floor) && next.ceiling == next.max - next.min
            && next.anchor == (if OneTop(groups) && !OneBottom(groups) then 100
                               else if OneBottom(groups) && !OneTop(groups) then 0
                               else current.anchor)
  {
    var groups := edit.phrase.value.groups;
    EditedFields(edit, current, limits, seed);
    PhraseStage(edit, current, limits);
    var s := Timed(edit, current, limits);
    PhrasedMeans(s, edit);
    AcceptedIsValid(edit, current, limits, seed);
    var next := Edited(edit, current, limits, seed).value;
    assert next.phrase == edit.phrase;
    ValidPhraseIsPlayable(next);
    PhraseIsEnveloped(s.(phrase := edit.phrase), groups);
    PhraseAnchor(s.(phrase := edit.phrase), groups);
    PhraseKeepsItsCeiling(s.(phrase := edit.phrase), groups);
    hide Edited, Reshaped, Phrased, PhraseShaped, OneTop, OneBottom, Timed, ControlsOk, Enveloped, Playable, Conforms,
         ControlsValid, LayersValid, DistinctAxes;
  }

  lemma PhraseKeepsItsCeiling(s: Score, groups: seq<Stroke>)
    ensures PhraseShaped(s, groups).ceiling == PhraseShaped(s, groups).max - PhraseShaped(s, groups).min
  {}

  lemma ValidPhraseIsPlayable(s: Score)
    requires PhraseValid(s) && s.phrase.Some? && 0 <= s.min && s.max <= 100
    ensures Playable(s.phrase.value.groups) && forall l | l in s.layers :: l.axis == "pace"
  {
    var groups := s.phrase.value.groups;
    forall g | g in groups ensures 0 <= g.bottom && g.top <= 100 && 10 <= g.top - g.bottom {
      var i :| 0 <= i < |groups| && groups[i] == g;
      assert StrokeValid(groups[i], s.min, s.max,
                         if s.phrase.value.Regions? then groups[i].top
                         else groups[if i == 0 then |groups| - 1 else i - 1].top);
    }
  }

  // ----- Geometries -----

  predicate NeedsRoom(geometry: string) {
    geometry == "alternate_ends" || geometry == "full_and_tip" || geometry == "full_and_base"
  }

  predicate IsAnchored(geometry: string) {
    geometry == "tip_anchor" || geometry == "base_anchor" || geometry == "centered"
  }

  /** Nine geometries are known; three of them need a band of twenty. */
  lemma GeometryAppliesExactly(s: Score, geometry: string)
    ensures Shaped(s, geometry).Some? <==>
              || (NeedsRoom(geometry) && 20 <= s.max - s.min)
              || IsAnchored(geometry) || geometry in {"", "full_slider", "full_band", "wander"}
  {
    hide Without, Replaced;
  }

  /** The band is the score's own but for the full slider, and the mode but for wandering. */
  lemma GeometryBand(s: Score, geometry: string)
    requires Shaped(s, geometry).Some?
    ensures var r := Shaped(s, geometry).value;
            && (if geometry == "full_slider" then r.min == 0 && r.max == 100 else r.min == s.min && r.max == s.max)
            && r.mode == (if geometry == "wander" then "drift" else s.mode)
            && r.anchor == (match geometry
                            case "tip_anchor" => 100 case "full_and_tip" => 100
                            case "base_anchor" => 0 case "full_and_base" => 0
                            case "centered" => 50
                            case _ => s.anchor)
  {
    hide Without, Replaced;
  }

  /** The stroke widths a geometry leaves, by the width of the band. */
  lemma GeometryEnvelope(s: Score, geometry: string)
    requires Shaped(s, geometry).Some? && geometry != "" && 0 <= s.max - s.min
    ensures var r, width := Shaped(s, geometry).value, if geometry == "full_slider" then 100 else s.max - s.min;
            match geometry
            case "alternate_ends" =>
              && r.floor == (if width >= 45 then 15 else if width < 33 then 10 else width / 3)
              && r.ceiling == (if width >= 60 then 30 else width / 2)
            case "full_and_tip" => r.floor == (if width >= 40 then 20 else width / 2) && r.ceiling == width
            case "full_and_base" => r.floor == (if width >= 40 then 20 else width / 2) && r.ceiling == width
            case "wander" => r.floor == (if width >= 20 then 20 else width) && r.ceiling == width
            case "full_slider" => r.floor == r.ceiling == 100
            case "full_band" => r.floor == r.ceiling == width
            case _ =>
              && r.floor == (if s.floor <= width then s.floor else width)
              && r.ceiling == (if s.ceiling <= width || s.ceiling == 0 then s.ceiling else width)
  {
    hide Without, Replaced;
  }

  // ----- Validators -----

  /** The layer on an axis moves it all the way, alternating. */
  predicate Alternates(layers: seq<Layer>, axis: string) {
    exists l :: l in layers && l.axis == axis && l.amount == 100 && l.shape == "alternate"
  }

  /** Nothing moves on an axis. */
  predicate Still(layers: seq<Layer>, axis: string) { forall l | l in layers && l.axis == axis :: l.amount == 0 }

  lemma OnMeans(layers: seq<Layer>, axis: string)
    requires DistinctAxes(layers)
    ensures FullAlternation(layers, axis) <==> Alternates(layers, axis)
    ensures AmountOn(layers, axis) == 0 <==> Still(layers, axis)
  {
    var i := IndexOf(layers, axis);
    hide IndexOf;
    forall l | l in layers && l.axis == axis ensures On(layers, axis) == Some(l) {
      var j :| 0 <= j < |layers| && layers[j] == l;
      OnItself(layers, j);
    }
  }

  /** What a geometry's own validator asks of the resulting score. */
  lemma ConformsExactly(s: Score, geometry: string)
    requires DistinctAxes(s.layers) && forall l | l in s.layers :: IsAxis(l.axis)
    ensures Conforms(s, geometry) <==>
            var width := s.max - s.min;
            match geometry
            case "full_slider" =>
              && s.min == 0 && s.max == 100 && s.floor == s.ceiling == width
              && Still(s.layers, "range") && Still(s.layers, "center")
            case "full_band" => s.floor == s.ceiling == width && Still(s.layers, "range") && Still(s.layers, "center")
            case "alternate_ends" =>
              && s.floor <= s.ceiling && 2 * s.ceiling <= width
              && Alternates(s.layers, "center") && Still(s.layers, "range")
            case "full_and_tip" =>
              && s.anchor == 100 && s.ceiling == width > s.floor
              && Alternates(s.layers, "range") && Still(s.layers, "center")
            case "full_and_base" =>
              && s.anchor == 0 && s.ceiling == width > s.floor
              && Alternates(s.layers, "range") && Still(s.layers, "center")
            case "tip_anchor" => s.anchor == 100 && Still(s.layers, "center")
            case "base_anchor" => s.anchor == 0 && Still(s.layers, "center")
            case "centered" => s.anchor == 50 && Still(s.layers, "center")
            case _ => true
  {
    OnMeans(s.layers, "range");
    OnMeans(s.layers, "center");
    assert Still(s.layers, "range") && Still(s.layers, "center") <==>
      forall l | l in s.layers && l.axis != "pace" :: l.amount == 0;
    hide FullAlternation, AmountOn, Alternates, Still, DistinctAxes;
  }

  /** Stroke counts, added up from the last. */
  function Counted(groups: seq<Stroke>): int {
    if groups == [] then 0 else Counted(groups[..|groups| - 1]) + groups[|groups| - 1].count
  }

  lemma {:induction false} CountIsTotal(groups: seq<Stroke>)
    ensures Counted(groups) == TotalCount(groups)
    decreases |groups|
  {
    if |groups| > 1 {
      var inner := groups[1..|groups| - 1];
      CountIsTotal(groups[1..]);
      CountIsTotal(groups[..|groups| - 1]);
      CountIsTotal(inner);
      assert groups[1..][..|groups[1..]| - 1] == inner && groups[..|groups| - 1][1..] == inner;
    } else if |groups| == 1 {
      assert groups[..0] == [] && groups[1..] == [];
    }
  }

  /**
    Each stroke lies in the band, is ten wide or more, is counted up to eight
    times, and starts ten below where the last ended.
   */
  predicate StrokeInLimits(s: Score, g: Stroke, from: int) {
    && g.bottom >= s.min && g.top <= s.max && g.top >= g.bottom + 10 && g.count >= 1 && g.count <= 8
    && g.rate >= 1 && g.rate <= 100 && from >= g.bottom + 10
  }

  /**
    A counted stroke starts where the one before it ended, the first where the
    last did; a regional one at its own top.
   */
  function StartsFrom(p: Phrase, i: nat): int
    requires i < |p.groups|
  {
    if p.Regions? then p.groups[i].top else if i > 0 then p.groups[i - 1].top else p.groups[|p.groups| - 1].top
  }

  predicate StrokesInLimits(s: Score, p: Phrase) {
    forall i | 0 <= i < |p.groups| :: StrokeInLimits(s, p.groups[i], StartsFrom(p, i))
  }

  /** Regional cycles join, and each says which way it goes. */
  predicate RegionsJoin(p: Phrase) {
    p.Regions? ==> p.joins && |p.cycles| == |p.groups| && forall c | c in p.cycles :: c == "up_down" || c == "down_up"
  }

  /**
    A stored phrase: one to six groups, twenty-four strokes at most, filling the
    band exactly, with only a pace layer.
   */
  predicate PhraseInLimits(s: Score, p: Phrase) {
    && (forall l | l in s.layers :: l.axis == "pace")
    && p.groups != [] && |p.groups| <= 6 && Counted(p.groups) <= 24
    && (exists g :: g in p.groups && g.bottom == s.min) && (exists g :: g in p.groups && g.top == s.max)
    && StrokesInLimits(s, p) && RegionsJoin(p)
  }

  predicate LayerInLimits(l: Layer) {
    && (l.axis == "center" || l.axis == "range" || (l.axis == "pace" && l.lowRate <= 100) ) && l.lowRate >= 0
    && (l.axis == "pace" || l.lowRate == 0)
    && l.amount >= 0 && l.amount <= 100 && l.period >= 2 && l.period <= 32 && l.phase >= 0 && l.phase <= 100
    && (l.shape == "" || l.shape == "wave" || l.shape == "alternate" || l.shape == "drift")
  }

  /** The limits of a score, in percentages and cycles. */
  predicate InLimits(s: Score, limits: Limits) {
    && s.min >= 0 && s.max <= 100 && s.max >= s.min + 10 && s.floor >= 10 && s.floor <= s.max - s.min
    && (s.ceiling == 0 || (s.ceiling >= s.floor && s.ceiling <= s.max - s.min))
    && s.anchor >= 0 && s.anchor <= 100 && s.memory >= 2 && s.memory <= 32
    && s.paceVariation >= 0 && s.paceVariation <= 40 && s.seed > 0
    && s.speed >= limits.speedMin && s.speed <= limits.speedMax
    && (s.mode == "drift" || s.mode == "waves" || s.mode == "")
    && s.softness >= 0 && s.softness <= 100 && s.hold >= 0 && s.hold <= 100
    && (s.loopCycles == 0 || (s.loopCycles >= 4 && s.loopCycles <= 64))
    && (s.pace == None || (s.pace.value.up >= 1 && s.pace.value.up <= 100
                           && s.pace.value.down >= 1 && s.pace.value.down <= 100))
    && (forall l | l in s.layers :: LayerInLimits(l))
    && (forall a, b | 0 <= a < |s.layers| && 0 <= b < |s.layers| && s.layers[a].axis == s.layers[b].axis :: a == b)
  }

  lemma BandIsTight(s: Score, groups: seq<Stroke>)
    requires groups != [] && forall g | g in groups :: s.min <= g.bottom && g.top <= s.max
    requires 0 <= s.min <= 90 && 10 <= s.max <= 100
    ensures s.min == LowestBottom(groups, 100) <==> exists g :: g in groups && g.bottom == s.min
    ensures s.max == HighestTop(groups, 0) <==> exists g :: g in groups && g.top == s.max
  {
    hide LowestBottom, HighestTop;
    var low, high := LowestBottom(groups, 100), HighestTop(groups, 0);
  }

  lemma StrokeLimits(s: Score, g: Stroke, from: int)
    ensures StrokeInLimits(s, g, from) <==> StrokeValid(g, s.min, s.max, from)
  {}

  lemma CountedLimits(s: Score, p: Phrase)
    requires p.Strokes?
    ensures StrokesInLimits(s, p) <==>
            forall i | 0 <= i < |p.groups| ::
              StrokeValid(p.groups[i], s.min, s.max, p.groups[if i == 0 then |p.groups| - 1 else i - 1].top)
  {
    forall i | 0 <= i < |p.groups|
      ensures StrokeInLimits(s, p.groups[i], StartsFrom(p, i)) <==>
              StrokeValid(p.groups[i], s.min, s.max, p.groups[if i == 0 then |p.groups| - 1 else i - 1].top)
    {
      StrokeLimits(s, p.groups[i], StartsFrom(p, i));
    }
    hide StrokeValid, StrokeInLimits, StartsFrom;
  }

  lemma RegionLimits(s: Score, p: Phrase)
    requires p.Regions?
    ensures StrokesInLimits(s, p) <==>
            forall i | 0 <= i < |p.groups| :: StrokeValid(p.groups[i], s.min, s.max, p.groups[i].top)
    ensures (forall c | c in p.cycles :: c == "up_down" || c == "down_up") <==>
            forall i | 0 <= i < |p.cycles| :: p.cycles[i] == "up_down" || p.cycles[i] == "down_up"
  {
    if forall c | c in p.cycles :: c == "up_down" || c == "down_up" {
      forall i | 0 <= i < |p.cycles| ensures p.cycles[i] == "up_down" || p.cycles[i] == "down_up" {
        assert p.cycles[i] in p.cycles;
      }
    }
    forall i | 0 <= i < |p.groups|
      ensures StrokeInLimits(s, p.groups[i], StartsFrom(p, i)) <==>
              StrokeValid(p.groups[i], s.min, s.max, p.groups[i].top)
    {
      StrokeLimits(s, p.groups[i], StartsFrom(p, i));
    }
    hide StrokeValid, StrokeInLimits, StartsFrom;
  }

  lemma PhraseValidMeans(s: Score, p: Phrase)
    requires s.phrase == Some(p)
    ensures PhraseValid(s) <==>
            && (forall l | l in s.layers :: l.axis == "pace")
            && 1 <= |p.groups| <= 6 && TotalCount(p.groups) <= 24 && StrokesInLimits(s, p) && RegionsJoin(p)
            && s.min == LowestBottom(p.groups, 100) && s.max == HighestTop(p.groups, 0)
  {
    if p.Strokes? {
      CountedLimits(s, p);
    } else {
      RegionLimits(s, p);
    }
    hide TotalCount, LowestBottom, HighestTop, StrokeValid, StrokesInLimits;
  }

  lemma StrokesInBand(s: Score, p: Phrase)
    requires StrokesInLimits(s, p)
    ensures forall g | g in p.groups :: s.min <= g.bottom && g.top <= s.max
  {}

  lemma PhraseLimits(s: Score, p: Phrase)
    requires s.phrase == Some(p) && 0 <= s.min <= 90 && s.min + 10 <= s.max <= 100
    ensures PhraseValid(s) <==> PhraseInLimits(s, p)
  {
    CountIsTotal(p.groups);
    PhraseValidMeans(s, p);
    if p.groups != [] && StrokesInLimits(s, p) {
      StrokesInBand(s, p);
      BandIsTight(s, p.groups);
    }
    hide TotalCount, Counted, LowestBottom, HighestTop, StrokesInLimits, RegionsJoin, PhraseValid;
  }

  lemma ControlLimits(s: Score, limits: Limits)
    ensures ControlsValid(s, limits) && LayersValid(s.layers) <==> InLimits(s, limits) && |s.layers| <= 3
  {}

  /** A score is accepted exactly within these limits. */
  lemma ScoreIsValidExactly(s: Score, limits: Limits)
    ensures Valid(s, limits) <==>
            InLimits(s, limits) && |s.layers| <= 3 && (s.phrase.Some? ==> PhraseInLimits(s, s.phrase.value))
  {
    ControlLimits(s, limits);
    if s.phrase.Some? && InLimits(s, limits) {
      PhraseLimits(s, s.phrase.value);
    }
    hide InLimits, ControlsValid, LayersValid, PhraseInLimits;
  }

  // ----- Layers -----

  /** A layer as an edit tells it: what it does not name stays, or starts as a slow third of drift. */
  predicate Told(e: LayerEdit, prior: Option<Layer>, l: Layer) {
    && l.axis == e.axis
    && l.phase == (if e.phase.Some? then e.phase.value else if prior.Some? then prior.value.phase else 0)
    && l.shape == (if e.shape.Some? then e.shape.value else if prior.Some? then prior.value.shape else "drift")
    && l.inverted == (if e.inverted.Some? then e.inverted.value else prior.Some? && prior.value.inverted)
    && l.period == (if e.period.Some? then e.period.value else if prior.None? then 12
                    else if e.periodChange.Some? then prior.value.period + e.periodChange.value
                    else prior.value.period)
  }

  predicate ToldAmounts(e: LayerEdit, prior: Option<Layer>, l: Layer) {
    && l.amount == (if e.amount.Some? then e.amount.value else if prior.Some? then prior.value.amount else 30)
    && l.lowRate == (if e.lowRate.Some? then e.lowRate.value else if prior.Some? then prior.value.lowRate else 0)
  }

  lemma UpdatedIsTold(e: LayerEdit, prior: Option<Layer>)
    requires prior.Some? ==> prior.value.axis == e.axis
    requires !(e.period.Some? && e.periodChange.Some?) && (e.periodChange.Some? ==> prior.Some?)
    ensures Told(e, prior, Updated(Or(prior, Fresh(e.axis)), e))
            && ToldAmounts(e, prior, Updated(Or(prior, Fresh(e.axis)), e))
  {}

  /**
    After an accepted edit each edited axis holds the layer told, but for the
    timing a link gives it; a removed one holds none.
   */
  lemma EditedLayerMeans(layers: seq<Layer>, edits: seq<LayerEdit>, remove: seq<string>, counted: bool, e: LayerEdit)
    requires DistinctAxes(layers) && ApplyLayers(layers, edits, remove, counted).Some?
    ensures var r := ApplyLayers(layers, edits, remove, counted).value;
            && (forall a | a in remove :: On(r, a) == None)
            && (e in edits ==>
                  && On(r, e.axis).Some? && ToldAmounts(e, On(layers, e.axis), On(r, e.axis).value)
                  && (e.follow.None? ==> Told(e, On(layers, e.axis), On(r, e.axis).value)))
  {
    ApplyLayersIs(layers, edits, remove, counted);
    WithoutAxes(layers, AsSet(remove));
    var r := ApplyLayers(layers, edits, remove, counted).value;
    var edited := EditAll(Without(layers, AsSet(remove)), edits, AsSet(remove)).value;
    hide On, Without, IndexOf, Updated, EditAll, FollowAll, ApplyLayers, Told, ToldAmounts, DistinctAxes, Linked,
         CanFollow, FollowsOk;
    forall a | a in remove ensures On(r, a) == None {
      assert EditFor(edits, a).None?;
      if a == "pace" {
        assert EditFor(edits, "pace").None?;
      }
    }
    if e in edits {
      OnlyEditOf(edits, e);
      OnAxis(layers, e.axis);
      assert Admissible(e, AsSet(remove));
      UpdatedIsTold(e, On(layers, e.axis));
      LinkKeepsAmounts(edited, edits, e);
    }
  }

  lemma OnAxis(layers: seq<Layer>, axis: string)
    ensures On(layers, axis).Some? ==> On(layers, axis).value.axis == axis
  {}

  lemma WithoutAxes(layers: seq<Layer>, gone: set<string>)
    ensures forall a :: On(Without(layers, gone), a) == if a in gone then None else On(layers, a)
  {
    forall a ensures On(Without(layers, gone), a) == if a in gone then None else On(layers, a) {
      WithoutOn(layers, gone, a);
    }
  }

  lemma LinkKeepsAmounts(layers: seq<Layer>, edits: seq<LayerEdit>, e: LayerEdit)
    requires EditFor(edits, e.axis) == Some(e) && On(layers, e.axis).Some?
    ensures FollowedOn(layers, edits, e.axis).Some?
    ensures FollowedOn(layers, edits, e.axis).value.amount == On(layers, e.axis).value.amount
    ensures FollowedOn(layers, edits, e.axis).value.lowRate == On(layers, e.axis).value.lowRate
    ensures e.follow.None? ==> FollowedOn(layers, edits, e.axis) == On(layers, e.axis)
  {
    hide On;
  }
}

/**
  What a transactional edit keeps, what it decides, and that neither the order
  of its layer edits nor the order of a map visit can be seen in the outcome.
 */
module LayeredLaws {
  import opened Options
  import opened LayeredScore
  import opened LayeredGeometry
  import opened LayeredLayers
  import opened LayeredEdit

  // ----- Stages -----

  lemma {:induction false} OnlyPaceOn(layers: seq<Layer>, axis: string)
    ensures On(OnlyPace(layers), axis) == if axis == "pace" then On(layers, axis) else None
  {
    if layers != [] {
      OnlyPaceOn(layers[1..], axis);
      var rest := OnlyPace(layers[1..]);
      assert ([layers[0]] + rest)[1..] == rest;
    }
  }

  lemma {:induction false} OnlyPaceDistinct(layers: seq<Layer>)
    requires DistinctAxes(layers)
    ensures DistinctAxes(OnlyPace(layers))
  {
    if layers != [] {
      OnlyPaceDistinct(layers[1..]);
      forall l | l in layers[1..] ensures l.axis != layers[0].axis {
        var j :| 0 <= j < |layers[1..]| && layers[1..][j] == l;
        assert layers[j + 1] == l;
      }
    }
  }

  lemma ReplacedDistinct(layers: seq<Layer>, layer: Layer)
    requires DistinctAxes(layers)
    ensures DistinctAxes(Replaced(layers, layer))
  {
    WithoutStaysDistinct(layers, {layer.axis});
  }

  lemma ShapedDistinct(s: Score, geometry: string)
    requires DistinctAxes(s.layers) && Shaped(s, geometry).Some?
    ensures DistinctAxes(Shaped(s, geometry).value.layers)
  {
    WithoutStaysDistinct(s.layers, {"range"});
    WithoutStaysDistinct(s.layers, {"center"});
    WithoutStaysDistinct(Without(s.layers, {"range"}), {"center"});
    if geometry == "alternate_ends" {
      ReplacedDistinct(Without(s.layers, {"range"}), Layer("center", 100, 8, 0, "alternate", 0, false));
    } else if geometry == "wander" {
      ReplacedDistinct(Without(s.layers, {"range"}), Layer("center", 35, 14, 17, "drift", 0, false));
    } else if geometry == "full_and_tip" || geometry == "full_and_base" {
      ReplacedDistinct(Without(s.layers, {"center"}), Layer("range", 100, 8, 0, "alternate", 0, false));
    }
    hide Without, Replaced, DistinctAxes;
  }

  /** Before the layer edits the axes are still distinct. */
  lemma ReshapedDistinct(edit: Edit, current: Score, limits: Limits)
    requires DistinctAxes(current.layers) && Reshaped(edit, current, limits).Some?
    ensures DistinctAxes(Reshaped(edit, current, limits).value.layers)
  {
    hide DistinctAxes, OnlyPace, Shaped, ControlsOk, NumberAfter, TextAt, ReshapesField, Conflicts;
    OnlyPaceDistinct(current.layers);
    var phrased :=
        Phrased(Limited(WithPace(Merged(current, edit.controls, edit.changes).value, edit.pace), edit, limits),
                edit).value;
    ShapedDistinct(phrased, edit.geometry);
  }

  /** The axes of an accepted score are distinct, and so is everything else the engine demands of it. */
  lemma AcceptedIsValid(edit: Edit, current: Score, limits: Limits, seed: nat)
    requires Edited(edit, current, limits, seed).Some?
    ensures var next := Edited(edit, current, limits, seed).value;
            Valid(next, limits) && DistinctAxes(next.layers) && Enveloped(next) && Conforms(next, edit.geometry)
  {
    hide Reshaped, Layered, PhraseValid, LayersValid, DistinctAxes, On, Conforms;
    var s := Layered(Reshaped(edit, current, limits).value, edit).value;
    ConformsIgnoresSeed(s, seed, edit.geometry);
    FinishedEnvelope(s, edit, limits, seed);
    DistinctWhenValid(Edited(edit, current, limits, seed).value.layers);
  }

  lemma DistinctWhenValid(layers: seq<Layer>)
    ensures LayersValid(layers) ==> DistinctAxes(layers)
  {}

  lemma ConformsIgnoresSeed(s: Score, seed: nat, geometry: string)
    ensures Conforms(s.(seed := seed), geometry) <==> Conforms(s, geometry)
  {
    hide On;
  }

  lemma FinishedEnvelope(s: Score, edit: Edit, limits: Limits, seed: nat)
    requires Finished(s, edit, limits, seed).Some?
    ensures Enveloped(Finished(s, edit, limits, seed).value)
  {
    hide PhraseValid, LayersValid, Conforms;
  }

  // ----- The frame -----

  /** Fields the spatial part of an edit cannot reach. */
  predicate SameTiming(a: Score, b: Score) {
    && a.speed == b.speed && a.memory == b.memory && a.paceVariation == b.paceVariation && a.pace == b.pace
    && a.softness == b.softness && a.hold == b.hold && a.loopCycles == b.loopCycles && a.seed == b.seed
  }

  lemma ShapedKeepsTiming(s: Score, geometry: string)
    requires Shaped(s, geometry).Some?
    ensures SameTiming(s, Shaped(s, geometry).value) && Shaped(s, geometry).value.phrase == s.phrase
  {
    hide Without, Replaced;
  }

  /** What the controls, the direction pace and the speed limit make of the score. */
  function Timed(edit: Edit, current: Score, limits: Limits): Score
    requires ControlsOk(edit.controls, edit.changes)
  {
    Limited(WithPace(Merged(current, edit.controls, edit.changes).value, edit.pace), edit, limits)
  }

  lemma ReshapedKeepsTiming(edit: Edit, current: Score, limits: Limits)
    requires Reshaped(edit, current, limits).Some?
    ensures ControlsOk(edit.controls, edit.changes)
    ensures SameTiming(Timed(edit, current, limits), Reshaped(edit, current, limits).value)
  {
    hide Shaped, OnlyPace, ReshapesField, Conflicts, PhraseShaped, NumberAfter, TextAt, ControlsOk;
    var phrased := Phrased(Timed(edit, current, limits), edit).value;
    ShapedKeepsTiming(phrased, edit.geometry);
  }

  lemma EditedFields(edit: Edit, current: Score, limits: Limits, seed: nat)
    requires Edited(edit, current, limits, seed).Some?
    ensures Reshaped(edit, current, limits).Some?
    ensures var before, after := Reshaped(edit, current, limits).value, Edited(edit, current, limits, seed).value;
            after == before.(layers := after.layers, seed := if edit.evolve then seed else before.seed)
  {
    hide Reshaped, ApplyLayers, Conforms, Valid;
  }

  /** The number a control ends with. */
  function Resolved(edit: Edit, name: string, prior: int): int { NumberAfter(edit.controls, edit.changes, name, prior) }

  /**
    Timing after an accepted edit: each named value is set or shifted, a
    relative speed is clamped to the saved limits, and everything unnamed stays.
   */
  lemma TimingIsExactlyAsNamed(edit: Edit, current: Score, limits: Limits, seed: nat)
    requires Edited(edit, current, limits, seed).Some?
    ensures var next := Edited(edit, current, limits, seed).value;
            && next.speed == (if "speed_percent" in edit.changes
                              then Min(Max(current.speed + edit.changes["speed_percent"].n, limits.speedMin),
                                       limits.speedMax)
                              else IntAt(edit.controls, "speed_percent", current.speed))
            && next.memory == Resolved(edit, "memory_cycles", current.memory)
            && next.paceVariation == Resolved(edit, "pace_variation_percent", current.paceVariation)
            && next.pace == (if edit.pace.None? then current.pace
                             else if edit.pace.value == DirectionalPace(100, 100) then None
                             else edit.pace)
            && next.softness == current.softness && next.hold == current.hold && next.loopCycles == current.loopCycles
            && next.seed == (if edit.evolve then seed else current.seed)
  {
    hide Edited, Reshaped;
    EditedFields(edit, current, limits, seed);
    ReshapedKeepsTiming(edit, current, limits);
    if "speed_percent" in edit.changes {
      assert ShiftOk(edit.controls, "speed_percent", edit.changes["speed_percent"]);
    }
    hide ControlsOk, Min, Max, ShiftOk, IsControl, TextAt;
  }

  lemma NothingSpatialIsKept(edit: Edit, current: Score, limits: Limits)
    requires Reshaped(edit, current, limits).Some? && edit.geometry == "" && edit.phrase.None?
    ensures var s := Reshaped(edit, current, limits).value;
            && s.min == Resolved(edit, "min_percent", current.min)
            && s.max == Resolved(edit, "max_percent", current.max)
            && s.anchor == Resolved(edit, "anchor_percent", current.anchor)
            && s.mode == TextAt(edit.controls, "variation_mode", current.mode)
            && s.layers == current.layers
            && (edit.width.None? ==> s.floor == current.floor && s.ceiling == current.ceiling)
            && (edit.width.Some? ==> s.floor == edit.width.value.0 && s.ceiling == edit.width.value.1)
            && (s.phrase == current.phrase || s.phrase == None)
  {
    hide ReshapesField, ControlsOk, NumberAfter, TextAt;
  }

  /** Without a geometry or a phrase the band, anchor, mode and envelope move only where they are named. */
  lemma SpaceIsExactlyAsNamed(edit: Edit, current: Score, limits: Limits, seed: nat)
    requires Edited(edit, current, limits, seed).Some? && edit.geometry == "" && edit.phrase.None?
    ensures var next := Edited(edit, current, limits, seed).value;
            && next.min == Resolved(edit, "min_percent", current.min)
            && next.max == Resolved(edit, "max_percent", current.max)
            && next.anchor == Resolved(edit, "anchor_percent", current.anchor)
            && next.mode == TextAt(edit.controls, "variation_mode", current.mode)
            && next.floor == (if edit.width.Some? then edit.width.value.0 else current.floor)
            && next.ceiling == (if edit.width.Some? then edit.width.value.1 else current.ceiling)
  {
    hide Edited, Reshaped, NumberAfter, TextAt;
    EditedFields(edit, current, limits, seed);
    NothingSpatialIsKept(edit, current, limits);
  }

  lemma ReshapedKeepsNamed(edit: Edit, current: Score, limits: Limits)
    requires Reshaped(edit, current, limits).Some? && edit.phrase.None?
    ensures var s := Reshaped(edit, current, limits).value;
            && (Specified(edit, "min_percent") ==> s.min == Resolved(edit, "min_percent", current.min))
            && (Specified(edit, "max_percent") ==> s.max == Resolved(edit, "max_percent", current.max))
            && (Specified(edit, "anchor_percent") ==> s.anchor == Resolved(edit, "anchor_percent", current.anchor))
            && ("variation_mode" in edit.controls ==> s.mode == TextAt(edit.controls, "variation_mode", current.mode))
  {
    hide Shaped, ReshapesField, ControlsOk, NumberAfter, TextAt, Specified, IsControl;
  }

  /** A geometry never moves the band, anchor or mode the same edit names: it is refused instead. */
  lemma NamedSpaceSurvivesGeometry(edit: Edit, current: Score, limits: Limits, seed: nat)
    requires Edited(edit, current, limits, seed).Some? && edit.phrase.None?
    ensures var next := Edited(edit, current, limits, seed).value;
            && (Specified(edit, "min_percent") ==> next.min == Resolved(edit, "min_percent", current.min))
            && (Specified(edit, "max_percent") ==> next.max == Resolved(edit, "max_percent", current.max))
            && (Specified(edit, "anchor_percent") ==> next.anchor == Resolved(edit, "anchor_percent", current.anchor))
            && ("variation_mode" in edit.controls ==>
                  next.mode == TextAt(edit.controls, "variation_mode", current.mode))
  {
    hide Edited, Reshaped, NumberAfter, TextAt;
    EditedFields(edit, current, limits, seed);
    ReshapedKeepsNamed(edit, current, limits);
  }

  /** Where no geometry or phrase is given, or the axis is pace, the layers an edit starts from are the current ones. */
  lemma LayersBefore(edit: Edit, current: Score, limits: Limits, axis: string)
    requires Reshaped(edit, current, limits).Some?
    requires axis == "pace" || (edit.geometry == "" && edit.phrase.None?)
    ensures On(Reshaped(edit, current, limits).value.layers, axis) == On(current.layers, axis)
  {
    hide On, OnlyPace, Shaped, ControlsOk, NumberAfter, TextAt, ReshapesField, Conflicts, PhraseShaped;
    var timed := Timed(edit, current, limits);
    OnlyPaceOn(current.layers, axis);
    var phrased := Phrased(timed, edit).value;
    if edit.geometry != "" {
      ShapedLayers(phrased, edit.geometry, axis);
    } else {
      UnshapedIsSame(phrased);
    }
  }

  lemma UnshapedIsSame(s: Score)
    ensures Shaped(s, "") == Some(s)
  {}

  /** An axis no layer edit names keeps its layer; only pace may take timing, and only from an edit of pace. */
  lemma UnnamedAxesAreKept(edit: Edit, current: Score, limits: Limits, seed: nat, axis: string)
    requires DistinctAxes(current.layers) && Edited(edit, current, limits, seed).Some?
    requires axis == "pace" || (edit.geometry == "" && edit.phrase.None?)
    requires axis !in edit.remove && forall e | e in edit.layers :: e.axis != axis
    ensures On(Edited(edit, current, limits, seed).value.layers, axis) == On(current.layers, axis)
  {
    hide On, Reshaped, EditAll, FollowAll, Updated, Linked, Conforms, Valid, DistinctAxes, EditsOk, RemovalsOk;
    LayersBefore(edit, current, limits, axis);
    ReshapedDistinct(edit, current, limits);
    var s := Reshaped(edit, current, limits).value;
    ApplyLayersIs(s.layers, edit.layers, edit.remove, s.phrase.Some?);
    assert EditFor(edit.layers, axis).None?;
    hide ApplyLayers, EditFor, LayersOk, FollowsOk, AsSet;
  }

  /** A pace layer linked to another axis ends with the timing that axis ends with. */
  lemma FollowSeesTheFinalSource(layers: seq<Layer>, edits: seq<LayerEdit>, remove: seq<string>, counted: bool,
                                 e: LayerEdit)
    requires DistinctAxes(layers) && ApplyLayers(layers, edits, remove, counted).Some?
    requires e in edits && e.follow.Some?
    ensures var r := ApplyLayers(layers, edits, remove, counted).value;
            var source, pace := On(r, e.follow.value.axis), On(r, "pace");
            && source.Some? && pace.Some?
            && source == ResultOn(layers, edits, AsSet(remove), e.follow.value.axis)
            && pace.value.period == source.value.period && pace.value.phase == source.value.phase
            && pace.value.shape == source.value.shape
            && (pace.value.inverted <==> source.value.inverted != (e.follow.value.relation == "opposite"))
            && source.value.amount != 0 && source.value.shape != "drift"
  {
    ApplyLayersIs(layers, edits, remove, counted);
    hide On, Without, IndexOf, Updated, EditAll, FollowAll, ApplyLayers, ResultOn;
    var edited := EditAll(Without(layers, AsSet(remove)), edits, AsSet(remove)).value;
    assert CanFollow(edited, e, counted);
    OnlyEditOf(edits, e);
  }

  lemma OnlyEditOf(edits: seq<LayerEdit>, e: LayerEdit)
    requires DistinctEdits(edits) && e in edits
    ensures EditFor(edits, e.axis) == Some(e)
  {
    var found := EditFor(edits, e.axis);
    var i :| 0 <= i < |edits| && edits[i] == e;
    var j :| 0 <= j < |edits| && edits[j] == found.value;
    assert i == j;
  }

  // ----- Order -----

  /** The same score up to the order its layers are stored in. */
  ghost predicate SameScore(a: Score, b: Score) { a == b.(layers := a.layers) && SameLayers(a.layers, b.layers) }

  lemma ReshapesAlike(s: Score, one: Edit, two: Edit)
    requires two == one.(layers := two.layers, remove := two.remove)
    requires Rearranged(one.layers, two.layers) && Rearranged(one.remove, two.remove)
    ensures ReshapesField(s, one) <==> ReshapesField(s, two)
  {
    RearrangedMembers(one.layers, two.layers);
    RearrangedMembers(one.remove, two.remove);
    hide On;
  }

  lemma ReshapedAlike(one: Edit, two: Edit, current: Score, limits: Limits)
    requires two == one.(layers := two.layers, remove := two.remove)
    requires Rearranged(one.layers, two.layers) && Rearranged(one.remove, two.remove)
    ensures Reshaped(one, current, limits) == Reshaped(two, current, limits)
  {
    hide ReshapesField, PhraseShaped, OnlyPace, Shaped, ControlsOk, NumberAfter, TextAt, WithPace, Widened, Merged, On;
    if Merged(current, one.controls, one.changes).Some? {
      var timed := Limited(WithPace(Merged(current, one.controls, one.changes).value, one.pace), one, limits);
      ReshapesAlike(timed, one, two);
      assert Phrased(timed, one) == Phrased(timed, two);
      if Phrased(timed, one).Some? {
        GeometryAlike(Phrased(timed, one).value, one, two);
      }
    }
  }

  lemma GeometryAlike(s: Score, one: Edit, two: Edit)
    requires two == one.(layers := two.layers, remove := two.remove)
    ensures GeometryEdited(s, one) == GeometryEdited(s, two)
  {
    hide Shaped;
  }

  lemma FinishedAlike(a: Score, b: Score, one: Edit, two: Edit, limits: Limits, seed: nat)
    requires SameScore(a, b) && DistinctAxes(a.layers) && DistinctAxes(b.layers)
    requires two == one.(layers := two.layers, remove := two.remove)
    ensures Finished(a, one, limits, seed).Some? <==> Finished(b, two, limits, seed).Some?
    ensures Finished(a, one, limits, seed).Some? ==>
              SameScore(Finished(a, one, limits, seed).value, Finished(b, two, limits, seed).value)
  {
    SameLayersSameValidity(a.layers, b.layers);
    ConformsAlike(a, b, one.geometry);
    PhraseValidAlike(if one.evolve then a.(seed := seed) else a, if one.evolve then b.(seed := seed) else b);
    hide Conforms, PhraseValid, LayersValid, On;
  }

  lemma ConformsAlike(a: Score, b: Score, geometry: string)
    requires SameScore(a, b) && forall l :: l in a.layers <==> l in b.layers
    ensures Conforms(a, geometry) <==> Conforms(b, geometry)
  {
    assert On(a.layers, "center") == On(b.layers, "center");
    assert On(a.layers, "range") == On(b.layers, "range");
    assert Full(a) <==> Full(b);
    hide On, Full;
  }

  lemma PhraseValidAlike(a: Score, b: Score)
    requires a == b.(layers := a.layers) && forall l :: l in a.layers <==> l in b.layers
    ensures PhraseValid(a) <==> PhraseValid(b)
  {}

  /**
    Permuting the layer edits and the removals of a transaction changes neither
    whether it is accepted nor the score, up to the order layers are stored in.
   */
  lemma EditsAreConfluent(one: Edit, two: Edit, current: Score, limits: Limits, seed: nat)
    requires DistinctAxes(current.layers)
    requires two == one.(layers := two.layers, remove := two.remove)
    requires Rearranged(one.layers, two.layers) && Rearranged(one.remove, two.remove)
    ensures Edited(one, current, limits, seed).Some? <==> Edited(two, current, limits, seed).Some?
    ensures Edited(one, current, limits, seed).Some? ==>
              SameScore(Edited(one, current, limits, seed).value, Edited(two, current, limits, seed).value)
  {
    hide Reshaped, ApplyLayers, Finished, On, DistinctAxes;
    ReshapedAlike(one, two, current, limits);
    if Reshaped(one, current, limits).Some? {
      var s := Reshaped(one, current, limits).value;
      ReshapedDistinct(one, current, limits);
      LayerEditsAreConfluent(s.layers, one.layers, two.layers, one.remove, two.remove, s.phrase.Some?);
      if Layered(s, one).Some? {
        ApplyLayersIs(s.layers, one.layers, one.remove, s.phrase.Some?);
        ApplyLayersIs(s.layers, two.layers, two.remove, s.phrase.Some?);
        FinishedAlike(Layered(s, one).value, Layered(s, two).value, one, two, limits, seed);
      }
    }
  }

  // ----- What the edit does not check -----

  /** A value the control's own type cannot hold, which decoding skips without an error. */
  predicate Mistyped(name: string, value: Value) {
    IsControl(name) && value != Null && if name == "variation_mode" then !value.Text? else !value.Int?
  }

  function OnlyControl(name: string, value: Value): Edit {
    Edit(None, None, "", None, map[name := value], map[], [], [], false)
  }

  /** The controls whose mere presence reshapes the field. */
  predicate Reshaping(name: string) { name in {"min_percent", "max_percent", "anchor_percent", "variation_mode"} }

  lemma MistypedChangesNoControl(s: Score, name: string, value: Value)
    requires Mistyped(name, value)
    ensures Merged(s, map[name := value], map[]) == Some(s)
  {}

  lemma NoLayersTouched(s: Score, name: string, value: Value)
    ensures Layered(s, OnlyControl(name, value)) == Some(s)
  {
    var none: seq<string> := [];
    assert AsSet(none) == {};
    WithoutTwice(s.layers, AsSet(none));
  }

  lemma OnlyControlReshapes(s: Score, name: string, value: Value)
    ensures ReshapesField(s, OnlyControl(name, value)) <==> Reshaping(name)
  {}

  lemma MistypedReshapes(current: Score, limits: Limits, name: string, value: Value)
    requires Mistyped(name, value)
    ensures Reshaped(OnlyControl(name, value), current, limits) ==
            Some(if Reshaping(name) then current.(phrase := None) else current)
  {
    MistypedChangesNoControl(current, name, value);
    OnlyControlReshapes(current, name, value);
    hide Merged, ReshapesField, Reshaping, Mistyped, Specified;
    UnshapedIsSame(if Reshaping(name) then current.(phrase := None) else current);
    hide Shaped;
  }

  lemma WithoutPhraseStaysValid(s: Score, limits: Limits)
    requires Valid(s, limits)
    ensures Valid(s.(phrase := None), limits)
  {
    hide LayersValid;
  }

  /**
    An edit naming only a mistyped control is accepted and sets nothing, but
    its mere presence drops a stored phrase when the control reshapes the field.
   */
  lemma MistypedControlStillReshapes(current: Score, limits: Limits, seed: nat, name: string, value: Value)
    requires Valid(current, limits) && Mistyped(name, value)
    ensures Edited(OnlyControl(name, value), current, limits, seed) ==
            Some(if Reshaping(name) then current.(phrase := None) else current)
  {
    MistypedReshapes(current, limits, name, value);
    var s := if Reshaping(name) then current.(phrase := None) else current;
    NoLayersTouched(s, name, value);
    WithoutPhraseStaysValid(current, limits);
    hide Reshaped, Layered, Valid, Reshaping, Mistyped;
  }

  /**
    Such an edit leaves the score alone if and only if it does not reshape the
    field, or there is no phrase to drop.
   */
  lemma MistypedControlIsSkippedExactly(current: Score, limits: Limits, seed: nat, name: string, value: Value)
    requires Valid(current, limits) && Mistyped(name, value)
    ensures Edited(OnlyControl(name, value), current, limits, seed) == Some(current) <==>
              !Reshaping(name) || current.phrase.None?
  {
    MistypedControlStillReshapes(current, limits, seed, name, value);
    hide Edited, Reshaping;
  }

  /** A numeric variation mode drops the phrase of every score that has one. */
  lemma MistypedModeDropsThePhrase(current: Score, limits: Limits, seed: nat)
    requires Valid(current, limits) && current.phrase.Some?
    ensures Edited(OnlyControl("variation_mode", Int(1)), current, limits, seed) ==
              Some(current.(phrase := None)) != Some(current)
  {
    MistypedControlStillReshapes(current, limits, seed, "variation_mode", Int(1));
    hide Edited;
  }

  /** The same edit without one of its absolute controls. */
  function Unset(edit: Edit, name: string): Edit { edit.(controls := edit.controls - {name}) }

  function BeforeGeometry(edit: Edit, current: Score, limits: Limits): Option<Score> {
    var merged := Merged(current, edit.controls, edit.changes);
    if merged.None? then None else Phrased(Limited(WithPace(merged.value, edit.pace), edit, limits), edit)
  }

  /** The edit's geometry moves this control. */
  predicate GeometryMoves(edit: Edit, current: Score, limits: Limits, name: string) {
    var before := BeforeGeometry(edit, current, limits);
    && before.Some? && Shaped(before.value, edit.geometry).Some?
    && Conflicts(before.value, Shaped(before.value, edit.geometry).value, OnlyControl(name, Null))
  }

  /** A mistyped control that is not shifted too writes nothing. */
  lemma MistypedWritesNothing(edit: Edit, s: Score, name: string)
    requires name in edit.controls && Mistyped(name, edit.controls[name])
    ensures Merged(s, edit.controls, edit.changes) ==
            if name in edit.changes then None else Merged(s, Unset(edit, name).controls, edit.changes)
  {
    var plain := Unset(edit, name);
    if name in edit.changes {
      assert !ShiftOk(edit.controls, name, edit.changes[name]);
    } else {
      forall other | other in edit.changes
        ensures ShiftOk(edit.controls, other, edit.changes[other]) <==>
                  ShiftOk(plain.controls, other, edit.changes[other])
      {
      }
      assert forall other | other in edit.controls ::
          other == name || (other in plain.controls && plain.controls[other] == edit.controls[other]);
      assert ControlsOk(edit.controls, edit.changes) <==> ControlsOk(plain.controls, edit.changes);
    }
  }

  lemma UnsetSpecifies(edit: Edit, name: string, other: string)
    requires name in edit.controls && name !in edit.changes
    ensures Specified(edit, other) <==> other == name || Specified(Unset(edit, name), other)
  {}

  /** Naming a reshaping control reshapes the field; naming any other changes nothing. */
  lemma PresenceReshapes(edit: Edit, s: Score, name: string)
    requires name in edit.controls && name !in edit.changes && IsControl(name)
    ensures ReshapesField(s, edit) <==> Reshaping(name) || ReshapesField(s, Unset(edit, name))
  {
    UnsetSpecifies(edit, name, "min_percent");
    UnsetSpecifies(edit, name, "max_percent");
    UnsetSpecifies(edit, name, "anchor_percent");
    UnsetSpecifies(edit, name, "variation_mode");
    hide On;
  }

  lemma PresenceConflicts(edit: Edit, before: Score, after: Score, name: string)
    requires name in edit.controls && name !in edit.changes && IsControl(name)
    ensures Conflicts(before, after, edit) <==>
            Conflicts(before, after, OnlyControl(name, Null)) || Conflicts(before, after, Unset(edit, name))
    ensures !Reshaping(name) ==> !Conflicts(before, after, OnlyControl(name, Null))
  {
  }

  lemma MergedForgetsPhrase(s: Score, controls: Fields, changes: Fields)
    ensures Merged(s.(phrase := None), controls, changes).Some? <==> Merged(s, controls, changes).Some?
    ensures Merged(s, controls, changes).Some? ==>
              Merged(s.(phrase := None), controls, changes).value == Merged(s, controls, changes).value.(phrase := None)
  {
    hide NumberAfter, TextAt, ControlsOk;
  }

  lemma BeforeGeometryMeans(edit: Edit, current: Score, limits: Limits, name: string)
    requires name in edit.controls && name !in edit.changes && Mistyped(name, edit.controls[name])
    ensures BeforeGeometry(edit, current, limits) ==
            if !Reshaping(name) then BeforeGeometry(Unset(edit, name), current, limits)
            else if edit.phrase.Some? then None
            else BeforeGeometry(Unset(edit, name), current.(phrase := None), limits)
  {
    var plain := Unset(edit, name);
    MistypedWritesNothing(edit, current, name);
    MergedForgetsPhrase(current, plain.controls, plain.changes);
    var merged := Merged(current, plain.controls, plain.changes);
    hide Merged, Mistyped, Reshaping, PhraseShaped, OnlyPace;
    if merged.Some? {
      var s := Limited(WithPace(merged.value, edit.pace), edit, limits);
      PresenceReshapes(edit, s, name);
      SameLayersReshape(plain, s, s.(phrase := None));
      hide ReshapesField;
    }
  }

  lemma SameLayersReshape(edit: Edit, a: Score, b: Score)
    requires a.layers == b.layers
    ensures ReshapesField(a, edit) <==> ReshapesField(b, edit)
  {}

  lemma GeometryEditedMeans(edit: Edit, s: Score, name: string)
    requires name in edit.controls && name !in edit.changes && IsControl(name)
    ensures var shaped := Shaped(s, edit.geometry);
            GeometryEdited(s, edit) ==
            if shaped.Some? && Conflicts(s, shaped.value, OnlyControl(name, Null)) then None
                else GeometryEdited(s, Unset(edit, name))
  {
    var shaped := Shaped(s, edit.geometry);
    hide Shaped;
    if shaped.Some? {
      PresenceConflicts(edit, s, shaped.value, name);
    }
    hide Conflicts, IsControl;
  }

  /** Before the layers: what the presence of a mistyped control does. */
  lemma MistypedReshaped(edit: Edit, current: Score, limits: Limits, name: string)
    requires name in edit.controls && Mistyped(name, edit.controls[name])
    ensures var plain := Unset(edit, name);
            Reshaped(edit, current, limits) ==
            if name in edit.changes then None
            else if !Reshaping(name) then Reshaped(plain, current, limits)
            else if edit.phrase.Some? || GeometryMoves(plain, current.(phrase := None), limits, name) then None
            else Reshaped(plain, current.(phrase := None), limits)
  {
    MistypedWritesNothing(edit, current, name);
    if name !in edit.changes {
      BeforeGeometryMeans(edit, current, limits, name);
      ReshapedAfter(edit, current, limits);
      ReshapedAfter(Unset(edit, name), current, limits);
      ReshapedAfter(Unset(edit, name), current.(phrase := None), limits);
      var before := BeforeGeometry(edit, current, limits);
      hide BeforeGeometry, Reshaped, Conflicts, Shaped, GeometryEdited, Widened, Merged;
      if before.Some? {
        GeometryEditedMeans(edit, before.value, name);
        if Shaped(before.value, edit.geometry).Some? {
          PresenceConflicts(edit, before.value, Shaped(before.value, edit.geometry).value, name);
        }
      }
      hide Mistyped, Reshaping;
    }
  }

  lemma ReshapedAfter(edit: Edit, current: Score, limits: Limits)
    ensures var before := BeforeGeometry(edit, current, limits);
            Reshaped(edit, current, limits) ==
            if before.None? || GeometryEdited(before.value, edit).None? then None
            else Widened(GeometryEdited(before.value, edit).value, edit.width)
  {
    hide Merged, Phrased, GeometryEdited, Widened;
  }

  /**
    What a mistyped absolute control does in any edit: if it is shifted too, the
    edit is refused; if it does not reshape the field, it might as well be
    absent; otherwise it refuses a new phrase and a geometry that moves it, and
    for the rest the edit acts as without it on a score without its phrase.
   */
  lemma MistypedControlMeans(edit: Edit, current: Score, limits: Limits, seed: nat, name: string)
    requires name in edit.controls && Mistyped(name, edit.controls[name])
    ensures var plain := Unset(edit, name);
            Edited(edit, current, limits, seed) ==
            if name in edit.changes then None
            else if !Reshaping(name) then Edited(plain, current, limits, seed)
            else if edit.phrase.Some? || GeometryMoves(plain, current.(phrase := None), limits, name) then None
            else Edited(plain, current.(phrase := None), limits, seed)
  {
    MistypedReshaped(edit, current, limits, name);
    hide Reshaped, ApplyLayers, Conforms, Valid, GeometryMoves, Mistyped, Reshaping;
  }

  /** An accepted absolute speed is taken when it is an integer; otherwise the speed stays as it was. */
  lemma SetSpeedIsTakenOrKept(edit: Edit, current: Score, limits: Limits, seed: nat)
    requires Edited(edit, current, limits, seed).Some? && "speed_percent" in edit.controls
    ensures edit.controls["speed_percent"].Int? ==>
              Edited(edit, current, limits, seed).value.speed == edit.controls["speed_percent"].n
    ensures !edit.controls["speed_percent"].Int? ==> Edited(edit, current, limits, seed).value.speed == current.speed
  {
    TimingIsExactlyAsNamed(edit, current, limits, seed);
    hide Edited, Reshaped;
    EditedFields(edit, current, limits, seed);
    ReshapedKeepsTiming(edit, current, limits);
    assert "speed_percent" in edit.changes ==> ShiftOk(edit.controls, "speed_percent", edit.changes["speed_percent"]);
  }
}

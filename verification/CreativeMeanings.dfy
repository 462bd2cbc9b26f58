/**
  What a generated-stroke edit comes to: the score written out control by
  control, and when it is accepted.
 */
module CreativeMeanings {
  import opened Options
  import opened SqlOrder
  import opened CreativeV2

  /** A group of exactly these fields, each a number. */
  predicate Numbers(value: Value, fields: set<Field>) {
    value.Group? && value.fields.Keys == fields && forall f | f in fields :: value.fields[f].Int?
  }

  /** A control written with all it needs and of the right types; an older focus edit may leave out roaming. */
  predicate WellGiven(control: Control, value: Value) {
    match control
    case Range => Numbers(value, {MinPercent, MaxPercent})
    case Focus =>
      || Numbers(value, {FocusPercent, FocusWidth, FocusMix, FocusRoam})
      || Numbers(value, {FocusPercent, FocusWidth, FocusMix})
    case Sweep =>
      && value.Group? && value.fields.Keys == {FasterDirection, Contrast}
      && value.fields[FasterDirection].Text? && value.fields[Contrast].Int?
    case Rebounds => Numbers(value, {ReboundCount, ReboundDecay})
    case Evolve => value.Flag?
    case SpeedPercent => value.Int?
    case InertiaPercent => value.Int?
    case VariationPercent => value.Int?
    case Unknown(_) => false
  }

  /** A field of a group that was written, else what it was. */
  function FromGroup(edits: Item, control: Control, field: Field, otherwise: int): int {
    if control !in edits || !edits[control].Group? then otherwise
    else
      var group := edits[control].fields;
      if field in group && group[field].Int? then group[field].n else if field.FocusRoam? then 0 else otherwise
  }

  function FromScalar(edits: Item, control: Control, otherwise: int): int {
    if control in edits && edits[control].Int? then edits[control].n else otherwise
  }

  function Direction(edits: Item, otherwise: string): string {
    if Sweep in edits && edits[Sweep].Group? && FasterDirection in edits[Sweep].fields
        && edits[Sweep].fields[FasterDirection].Text?
    then edits[Sweep].fields[FasterDirection].s else otherwise
  }

  /** The score with every named control written and nothing else touched. */
  function Written(edits: Item, s: Score, seed: nat): Score {
    var g := s.gesture;
    Score(FromGroup(edits, Range, MinPercent, s.min), FromGroup(edits, Range, MaxPercent, s.max),
          FromScalar(edits, SpeedPercent, s.speed), s.floor,
          if Evolve in edits && edits[Evolve] == Flag(true) then seed else s.seed,
          Gesture(FromGroup(edits, Focus, FocusPercent, g.focus), FromGroup(edits, Focus, FocusWidth, g.focusWidth),
                  FromGroup(edits, Focus, FocusMix, g.focusMix), FromGroup(edits, Focus, FocusRoam, g.focusRoam),
                  Direction(edits, g.direction), FromGroup(edits, Sweep, Contrast, g.contrast),
                  FromGroup(edits, Rebounds, ReboundCount, g.rebounds),
                  FromGroup(edits, Rebounds, ReboundDecay, g.decay),
                  FromScalar(edits, InertiaPercent, g.inertia), FromScalar(edits, VariationPercent, g.variation)))
  }

  /** The local width never exceeds the band, nor falls under ten for that. */
  function Narrowed(s: Score): Score {
    var band := s.max - s.min;
    var widest := if band >= 10 then band else 10;
    s.(gesture := s.gesture.(focusWidth := if s.gesture.focusWidth <= band then s.gesture.focusWidth else widest))
  }

  /** The limits of a score, in percentages. */
  predicate InLimits(s: Score, limits: Limits) {
    var g := s.gesture;
    && s.min >= 0 && s.max <= 100 && s.max - s.min >= 10 && s.floor >= 10 && s.floor <= s.max - s.min
    && s.speed >= limits.speedMin && s.speed <= limits.speedMax && s.seed > 0
    && g.focus >= 0 && g.focus <= 100 && g.focusWidth >= 10 && g.focusWidth <= s.max - s.min
    && g.focusMix >= 0 && g.focusMix <= 100 && g.focusRoam >= 0 && g.focusRoam <= 100
    && (g.direction == "tip" || g.direction == "base" || g.direction == "even") && g.contrast >= 0 && g.contrast <= 80
    && g.rebounds >= 0 && g.rebounds <= 4 && g.decay >= 25 && g.decay <= 85
    && g.inertia >= 0 && g.inertia <= 100 && g.variation >= 0 && g.variation <= 100
  }

  predicate AllGiven(edits: Item) { forall name | name in edits :: WellGiven(name, edits[name]) }

  lemma SameFields(group: Fields, fields: set<Field>)
    ensures (|group| == |fields| && forall f | f in fields :: f in group) <==> group.Keys == fields
  {
    if |group| == |fields| && forall f | f in fields :: f in group {
      SubsetSize(fields, group.Keys);
    }
  }

  lemma GroupsHold(control: Control, group: Fields)
    requires IsGroup(control)
    ensures GroupOk(control, group) <==>
            && group.Keys == FieldsIn(control) && (forall f | f in FieldsIn(control) :: group[f] != Null)
            && (control == Range ==> forall f | f in FieldsIn(control) :: group[f].Int?)
  {
    SameFields(group, FieldsIn(control));
    hide FieldsIn;
  }

  predicate TypedFor(field: Field, value: Value) { if field.FasterDirection? then value.Text? else value.Int? }

  /** What one control writes: its own fields, or nothing usable. */
  lemma WritesWellGiven(control: Control, value: Value)
    requires WellGiven(control, value)
    ensures Writes(control, value).Some?
    ensures forall f | f in Writes(control, value).value :: TypedFor(f, Writes(control, value).value[f])
  {
    if IsGroup(control) {
      var group := Filled(control, value.fields);
      assert group.Keys == FieldsIn(control);
      GroupsHold(control, group);
    }
    hide GroupOk;
  }

  lemma WritesTypedIsGiven(control: Control, value: Value)
    requires Writes(control, value).Some?
    requires forall f | f in Writes(control, value).value :: TypedFor(f, Writes(control, value).value[f])
    ensures WellGiven(control, value)
  {
    var written := Writes(control, value).value;
    if IsGroup(control) {
      var group := Filled(control, value.fields);
      GroupsHold(control, group);
      assert written.Keys == FieldsIn(control) && forall f | f in written :: written[f] == group[f];
      hide GroupOk, Picked, Writes;
      TypedGroupIsGiven(control, value, group);
    } else if control == InertiaPercent {
      assert Inertia in written;
    } else if control == VariationPercent {
      assert Variation in written;
    }
  }

  lemma TypedGroupIsGiven(control: Control, value: Value, group: Fields)
    requires IsGroup(control) && value.Group? && group == Filled(control, value.fields)
             && group.Keys == FieldsIn(control)
    requires forall f | f in group :: TypedFor(f, group[f])
    ensures WellGiven(control, value)
  {
    if control == Focus && FocusRoam !in value.fields {
      assert value.fields.Keys == group.Keys - {FocusRoam};
      assert value.fields.Keys == {FocusPercent, FocusWidth, FocusMix};
    }
  }

  /** The edits are all given in full and typed right exactly if every field reads back. */
  lemma ReadsBackExactly(edits: Item, s: Score)
    ensures EditsOk(edits) && WellTyped(FieldsAfter(edits, s)) <==> AllGiven(edits)
  {
    hide Writes, WellGiven, OwnerOf;
    if AllGiven(edits) {
      forall name | name in edits ensures Writes(name, edits[name]).Some? {
        WritesWellGiven(name, edits[name]);
      }
      forall field | field in FieldNames()
        ensures field in FieldsOf(s) && TypedFor(field, FieldAfter(edits, field, FieldsOf(s)[field]))
      {
        if OwnerOf(field) in edits {
          WritesWellGiven(OwnerOf(field), edits[OwnerOf(field)]);
        }
      }
    }
    if EditsOk(edits) && WellTyped(FieldsAfter(edits, s)) {
      forall name | name in edits ensures WellGiven(name, edits[name]) {
        WritesOwnFields(name, edits[name]);
        var written := Writes(name, edits[name]).value;
        forall f | f in written ensures TypedFor(f, written[f]) {
          assert f in FieldsOf(s) && FieldAfter(edits, f, FieldsOf(s)[f]) == written[f];
          assert f in FieldsAfter(edits, s);
        }
        WritesTypedIsGiven(name, edits[name]);
      }
    }
  }

  lemma GroupWrites(control: Control, value: Value, field: Field)
    requires IsGroup(control) && WellGiven(control, value) && field in FieldsIn(control)
    ensures Writes(control, value).Some? && field in Writes(control, value).value && value.Group?
    ensures Writes(control, value).value[field] == if field in value.fields then value.fields[field] else Int(0)
    ensures field in value.fields || field == FocusRoam
    ensures !field.FasterDirection? && field in value.fields ==> value.fields[field].Int?
  {
    var group := Filled(control, value.fields);
    assert group.Keys == FieldsIn(control);
    GroupsHold(control, group);
    hide GroupOk;
  }

  lemma OwnsItsFields(control: Control, field: Field)
    requires field in FieldsIn(control)
    ensures OwnerOf(field) == control
  {}

  /** The fields of a well-given group, as they are written. */
  lemma WrittenField(edits: Item, control: Control, field: Field, prior: int)
    requires AllGiven(edits) && IsGroup(control) && field in FieldsIn(control) && !field.FasterDirection?
    ensures FieldAfter(edits, field, Int(prior)) == Int(FromGroup(edits, control, field, prior))
  {
    OwnsItsFields(control, field);
    hide WellGiven, Writes, FieldsIn, OwnerOf;
    if control in edits {
      assert WellGiven(control, edits[control]);
      GroupWrites(control, edits[control], field);
    }
  }

  lemma WrittenDirection(edits: Item, prior: string)
    requires AllGiven(edits)
    ensures FieldAfter(edits, FasterDirection, Text(prior)) == Text(Direction(edits, prior))
  {
    if Sweep in edits {
      assert WellGiven(Sweep, edits[Sweep]);
      GroupsHold(Sweep, edits[Sweep].fields);
    }
    hide GroupOk;
  }

  lemma WrittenScalars(edits: Item, speed: int, inertia: int, variation: int)
    requires AllGiven(edits)
    ensures FieldAfter(edits, TravelSpeed, Int(speed)) == Int(FromScalar(edits, SpeedPercent, speed))
    ensures FieldAfter(edits, Inertia, Int(inertia)) == Int(FromScalar(edits, InertiaPercent, inertia))
    ensures FieldAfter(edits, Variation, Int(variation)) == Int(FromScalar(edits, VariationPercent, variation))
  {
    forall name | name in edits ensures WellGiven(name, edits[name]) {}
  }

  lemma DecodedIsWritten(edits: Item, s: Score, seed: nat)
    requires AllGiven(edits) && WellTyped(FieldsAfter(edits, s))
    ensures Decoded(FieldsAfter(edits, s), s).(seed := if Evolves(edits) then seed else s.seed) ==
              Written(edits, s, seed)
  {
    hide FromGroup, FromScalar, Direction, FieldAfter;
    var g := s.gesture;
    WrittenField(edits, Range, MinPercent, s.min);
    WrittenField(edits, Range, MaxPercent, s.max);
    WrittenField(edits, Focus, FocusPercent, g.focus);
    WrittenField(edits, Focus, FocusWidth, g.focusWidth);
    WrittenField(edits, Focus, FocusMix, g.focusMix);
    WrittenField(edits, Focus, FocusRoam, g.focusRoam);
    WrittenField(edits, Sweep, Contrast, g.contrast);
    WrittenField(edits, Rebounds, ReboundCount, g.rebounds);
    WrittenField(edits, Rebounds, ReboundDecay, g.decay);
    WrittenDirection(edits, g.direction);
    WrittenScalars(edits, s.speed, g.inertia, g.variation);
    hide AllGiven, WellTyped;
  }

  lemma LimitsAreValid(s: Score, limits: Limits)
    ensures Valid(s, limits) <==> InLimits(s, limits)
  {}

  lemma FittedIsNarrowed(s: Score)
    ensures Fitted(s) == Narrowed(s)
  {}

  /**
    An edit is accepted if and only if every control is given in full and the
    score with all of them written, its local width fitted to the band, is within
    the limits; and that is then the new score.
   */
  lemma CreativeEditMeans(edits: Item, s: Score, limits: Limits, seed: nat)
    ensures var direct := Narrowed(Written(edits, s, seed));
            Edited(edits, s, limits, seed) ==
            if AllGiven(edits) && InLimits(direct, limits) then Some(direct) else None
  {
    ReadsBackExactly(edits, s);
    if AllGiven(edits) {
      DecodedIsWritten(edits, s, seed);
      FittedIsNarrowed(Written(edits, s, seed));
      LimitsAreValid(Narrowed(Written(edits, s, seed)), limits);
    }
    hide AllGiven, EditsOk, WellTyped, FieldsAfter, Decoded, Written, Fitted, Narrowed, Valid, InLimits;
  }
}

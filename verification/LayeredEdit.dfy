/**
  One transactional edit of a continuous score: controls set or shifted,
  a phrase or a named geometry, a stroke width, layer edits, a fresh seed.
 */
module LayeredEdit {
  import opened Options
  import opened LayeredScore
  import opened LayeredGeometry
  import opened LayeredLayers

  /** A decoded control value. */
  datatype Value = Null | Int(n: int) | Text(s: string) | Other

  type Fields = map<string, Value>

  datatype Edit = Edit(pace: Option<DirectionalPace>, phrase: Option<Phrase>, geometry: string,
                       width: Option<(int, int)>,
                       controls: Fields, changes: Fields, layers: seq<LayerEdit>, remove: seq<string>, evolve: bool)

  predicate IsControl(name: string) {
    name in {"min_percent", "max_percent", "speed_percent", "anchor_percent", "memory_cycles", "pace_variation_percent",
             "variation_mode"}
  }

  /** The names the shared merge accepts; Layered edits are checked against their own seven first. */
  predicate IsMergeable(name: string) {
    IsControl(name)
        || name in {"range_floor_percent", "range_ceiling_percent", "turn_softness_percent", "cadence_hold_percent"}
  }

  function FieldsOf(s: Score): Fields {
    map["min_percent" := Int(s.min), "max_percent" := Int(s.max), "speed_percent" := Int(s.speed),
        "anchor_percent" := Int(s.anchor), "memory_cycles" := Int(s.memory),
        "pace_variation_percent" := Int(s.paceVariation), "variation_mode" := Text(s.mode)]
  }

  function IntAt(fields: Fields, name: string, prior: int): int {
    if name in fields && fields[name].Int? then fields[name].n else prior
  }

  function TextAt(fields: Fields, name: string, prior: string): string {
    if name in fields && fields[name].Text? then fields[name].s else prior
  }

  /** Decoding back: a field of the wrong type is skipped without an error. */
  function Decoded(fields: Fields, s: Score): Score {
    s.(min := IntAt(fields, "min_percent", s.min), max := IntAt(fields, "max_percent", s.max),
       speed := IntAt(fields, "speed_percent", s.speed), anchor := IntAt(fields, "anchor_percent", s.anchor),
       memory := IntAt(fields, "memory_cycles", s.memory),
       paceVariation := IntAt(fields, "pace_variation_percent", s.paceVariation),
       mode := TextAt(fields, "variation_mode", s.mode))
  }

  // ----- Controls -----

  predicate ShiftOk(controls: Fields, name: string, v: Value) {
    name !in controls && name != "variation_mode" && v.Int? && -100 <= v.n <= 100
  }

  predicate ControlsOk(controls: Fields, changes: Fields) {
    && (forall name | name in controls :: IsControl(name) && controls[name] != Null)
    && (forall name | name in changes :: IsControl(name) && ShiftOk(controls, name, changes[name]))
  }

  /** A control's value after the edit: set if well typed, else shifted, else kept. */
  function NumberAfter(controls: Fields, changes: Fields, name: string, prior: int): int {
    if name in controls then IntAt(controls, name, prior)
    else if name in changes && changes[name].Int? then prior + changes[name].n
    else prior
  }

  function Merged(s: Score, controls: Fields, changes: Fields): Option<Score> {
    if !ControlsOk(controls, changes) then None
    else
      Some(s.(min := NumberAfter(controls, changes, "min_percent", s.min),
              max := NumberAfter(controls, changes, "max_percent", s.max),
              speed := NumberAfter(controls, changes, "speed_percent", s.speed),
              anchor := NumberAfter(controls, changes, "anchor_percent", s.anchor),
              memory := NumberAfter(controls, changes, "memory_cycles", s.memory),
              paceVariation := NumberAfter(controls, changes, "pace_variation_percent", s.paceVariation),
              mode := TextAt(controls, "variation_mode", s.mode)))
  }

  /** Fields after some of the controls have been written over the current ones. */
  ghost predicate Written(fields: Fields, start: Fields, controls: Fields, done: set<string>) {
    && (forall name | name in start :: name in fields)
    && (forall name | name in fields :: name in start || name in done)
    && (forall name | name in fields ::
          fields[name] ==
          if name in done && name in controls then controls[name] else if name in start then start[name] else Null)
  }

  /** Write each named control; the runtime visits the map in any order. */
  method MergeControls(start: Fields, controls: Fields) returns (fields: Option<Fields>)
    ensures fields.None? <==> exists name :: name in controls && (!IsMergeable(name) || controls[name] == Null)
    ensures fields.Some? ==> Written(fields.value, start, controls, controls.Keys)
  {
    var result := start;
    var unread := controls.Keys;
    while unread != {}
      invariant unread <= controls.Keys
      invariant forall name | name in controls.Keys - unread :: IsMergeable(name) && controls[name] != Null
      invariant Written(result, start, controls, controls.Keys - unread)
      decreases unread
    {
      var name :| name in unread;
      if !IsMergeable(name) || controls[name] == Null {
        return None;
      }
      result := result[name := controls[name]];
      unread := unread - {name};
    }
    assert controls.Keys - unread == controls.Keys;
    fields := Some(result);
  }

  /** A stored value to shift: an integer, or absent. */
  predicate Shiftable(fields: Fields, name: string) { name in fields ==> fields[name].Int? }

  /** What a shift starts from; a zero ceiling stands for the outer width. */
  function ShiftFrom(before: Fields, name: string, width: int): int {
    var stored := IntAt(before, name, 0);
    if name == "range_ceiling_percent" && stored == 0 then width else stored
  }

  /** Fields after some shifts: each visited control moved once from its value before. */
  ghost predicate Shifted(fields: Fields, before: Fields, changes: Fields, width: int, done: set<string>) {
    && (forall name :: name in fields <==> name in before || name in done)
    && (forall name | name in fields ::
          fields[name] ==
              if name in done && name in changes && changes[name].Int?
              then Int(ShiftFrom(before, name, width) + changes[name].n)
                          else if name in before then before[name] else Null)
  }

  /** Shift each named control; again in any order. */
  method MergeAdjustments(start: Fields, controls: Fields, changes: Fields, width: int) returns (fields: Option<Fields>)
    ensures fields.None? <==>
            exists name ::
                name in changes
                && !(IsMergeable(name) && ShiftOk(controls, name, changes[name]) && Shiftable(start, name))
    ensures fields.Some? ==> Shifted(fields.value, start, changes, width, changes.Keys)
  {
    var result := start;
    var unread := changes.Keys;
    while unread != {}
      invariant unread <= changes.Keys
      invariant forall name | name in changes.Keys - unread ::
                  IsMergeable(name) && ShiftOk(controls, name, changes[name]) && Shiftable(start, name)
      invariant Shifted(result, start, changes, width, changes.Keys - unread)
      decreases unread
    {
      var name :| name in unread;
      if !IsMergeable(name) || !ShiftOk(controls, name, changes[name]) || !Shiftable(result, name) {
        return None;
      }
      var before := ShiftFrom(result, name, width);
      result := result[name := Int(before + changes[name].n)];
      unread := unread - {name};
    }
    assert changes.Keys - unread == changes.Keys;
    fields := Some(result);
  }

  lemma UnsetStaysShiftable(s: Score, controls: Fields, written: Fields, changes: Fields)
    requires Written(written, FieldsOf(s), controls, controls.Keys)
    ensures forall name | name in changes && ShiftOk(controls, name, changes[name]) :: Shiftable(written, name)
  {
    assert forall name | name in FieldsOf(s) && name != "variation_mode" :: FieldsOf(s)[name].Int?;
  }

  lemma DecodedIsMerged(s: Score, controls: Fields, changes: Fields, written: Fields, shifted: Fields)
    requires ControlsOk(controls, changes)
    requires Written(written, FieldsOf(s), controls, controls.Keys)
             && Shifted(shifted, written, changes, Width(s), changes.Keys)
    ensures Some(Decoded(shifted, s)) == Merged(s, controls, changes)
  {
    NumberField(s, controls, changes, written, shifted, "min_percent", s.min);
    NumberField(s, controls, changes, written, shifted, "max_percent", s.max);
    NumberField(s, controls, changes, written, shifted, "speed_percent", s.speed);
    NumberField(s, controls, changes, written, shifted, "anchor_percent", s.anchor);
    NumberField(s, controls, changes, written, shifted, "memory_cycles", s.memory);
    NumberField(s, controls, changes, written, shifted, "pace_variation_percent", s.paceVariation);
    ModeField(s, controls, changes, written, shifted);
    hide Written, Shifted, FieldsOf, IntAt, TextAt, NumberAfter;
  }

  lemma NumberField(s: Score, controls: Fields, changes: Fields, written: Fields, shifted: Fields, name: string,
                    prior: int)
    requires ControlsOk(controls, changes) && name in FieldsOf(s) && FieldsOf(s)[name] == Int(prior)
    requires Written(written, FieldsOf(s), controls, controls.Keys)
             && Shifted(shifted, written, changes, Width(s), changes.Keys)
    ensures IntAt(shifted, name, prior) == NumberAfter(controls, changes, name, prior)
  {
    hide FieldsOf;
  }

  lemma ModeField(s: Score, controls: Fields, changes: Fields, written: Fields, shifted: Fields)
    requires ControlsOk(controls, changes)
    requires Written(written, FieldsOf(s), controls, controls.Keys)
             && Shifted(shifted, written, changes, Width(s), changes.Keys)
    ensures TextAt(shifted, "variation_mode", s.mode) == TextAt(controls, "variation_mode", s.mode)
  {
    assert FieldsOf(s)["variation_mode"] == Text(s.mode);
    hide FieldsOf;
  }

  /** Every name must be one of the seven Layered controls; the map is visited in any order. */
  method OnlyLayeredControls(fields: Fields) returns (ok: bool)
    ensures ok <==> forall name | name in fields :: IsControl(name)
  {
    var unread := fields.Keys;
    while unread != {}
      invariant unread <= fields.Keys
      invariant forall name | name in fields.Keys - unread :: IsControl(name)
      decreases unread
    {
      var name :| name in unread;
      if !IsControl(name) {
        return false;
      }
      unread := unread - {name};
    }
    ok := true;
  }

  /** Check the names, then set, shift and decode. */
  method ApplyControls(s: Score, controls: Fields, changes: Fields) returns (r: Option<Score>)
    ensures r == Merged(s, controls, changes)
  {
    var named := OnlyLayeredControls(controls);
    if !named {
      return None;
    }
    named := OnlyLayeredControls(changes);
    if !named {
      return None;
    }
    hide Written, Shifted, FieldsOf, Decoded, NumberAfter;
    var written := MergeControls(FieldsOf(s), controls);
    if written.None? {
      return None;
    }
    UnsetStaysShiftable(s, controls, written.value, changes);
    var shifted := MergeAdjustments(written.value, controls, changes, Width(s));
    if shifted.None? {
      return None;
    }
    DecodedIsMerged(s, controls, changes, written.value, shifted.value);
    r := Some(Decoded(shifted.value, s));
  }

  // ----- The whole edit -----

  predicate Specified(edit: Edit, name: string) { name in edit.controls || name in edit.changes }

  function WithPace(s: Score, pace: Option<DirectionalPace>): Score {
    if pace.None? then s
    else s.(pace := if pace.value == DirectionalPace(100, 100) then None else pace)
  }

  /** A relative step past a saved speed limit goes as far as the limit allows. */
  function Limited(s: Score, edit: Edit, limits: Limits): Score {
    if "speed_percent" in edit.changes then s.(speed := Min(Max(s.speed, limits.speedMin), limits.speedMax)) else s
  }

  /** The edit reshapes the field, so it cannot keep or bring a counted phrase. */
  predicate ReshapesField(s: Score, edit: Edit) {
    || edit.geometry != "" || edit.width.Some?
    || (exists e :: e in edit.layers && e.axis != "pace")
    || (exists a :: a in edit.remove && edit.phrase.None? && a != "pace" && On(s.layers, a).Some?)
    || Specified(edit, "min_percent") || Specified(edit, "max_percent") || Specified(edit, "anchor_percent")
    || Specified(edit, "variation_mode")
  }

  function OnlyPace(layers: seq<Layer>): (r: seq<Layer>)
    ensures forall l | l in r :: l.axis == "pace" && l in layers
  {
    if layers == [] then []
    else if layers[0].axis == "pace" then [layers[0]] + OnlyPace(layers[1..]) else OnlyPace(layers[1..])
  }

  function Phrased(s: Score, edit: Edit): Option<Score> {
    if edit.phrase.None? then Some(if ReshapesField(s, edit) then s.(phrase := None) else s)
    else if ReshapesField(s, edit) then None
    else Some(PhraseShaped(s.(phrase := edit.phrase), edit.phrase.value.groups).(layers := OnlyPace(s.layers)))
  }

  /** A geometry may not move what the same edit names. */
  predicate Conflicts(before: Score, after: Score, edit: Edit) {
    || (Specified(edit, "anchor_percent") && before.anchor != after.anchor)
    || ("variation_mode" in edit.controls && before.mode != after.mode)
    || (Specified(edit, "min_percent") && before.min != after.min)
    || (Specified(edit, "max_percent") && before.max != after.max)
  }

  function GeometryEdited(s: Score, edit: Edit): Option<Score> {
    var shaped := Shaped(s, edit.geometry);
    if shaped.None? || Conflicts(s, shaped.value, edit) then None else shaped
  }

  function Widened(s: Score, width: Option<(int, int)>): Option<Score> {
    if width.None? then Some(s)
    else if width.value.0 < 10 || width.value.1 < width.value.0 then None
    else Some(s.(floor := width.value.0, ceiling := width.value.1))
  }

  function Layered(s: Score, edit: Edit): Option<Score> {
    var layers := ApplyLayers(s.layers, edit.layers, edit.remove, s.phrase.Some?);
    if layers.None? then None else Some(s.(layers := layers.value))
  }

  /** Everything before the layer edits. */
  function Reshaped(edit: Edit, current: Score, limits: Limits): Option<Score> {
    var merged := Merged(current, edit.controls, edit.changes);
    if merged.None? then None
    else
      var phrased := Phrased(Limited(WithPace(merged.value, edit.pace), edit, limits), edit);
      if phrased.None? then None
      else
        var shaped := GeometryEdited(phrased.value, edit);
        if shaped.None? then None else Widened(shaped.value, edit.width)
  }

  /** The checks and the seed after them; `seed` is the fresh one. */
  function Finished(s: Score, edit: Edit, limits: Limits, seed: nat): Option<Score> {
    var seeded := if edit.evolve then s.(seed := seed) else s;
    if !Conforms(s, edit.geometry) || !Valid(seeded, limits) then None else Some(seeded)
  }

  function Edited(edit: Edit, current: Score, limits: Limits, seed: nat): Option<Score> {
    var reshaped := Reshaped(edit, current, limits);
    if reshaped.None? then None
    else
      var layered := Layered(reshaped.value, edit);
      if layered.None? then None else Finished(layered.value, edit, limits, seed)
  }

  method KeepPace(layers: seq<Layer>) returns (r: seq<Layer>)
    ensures r == OnlyPace(layers)
  {
    r := [];
    var i := |layers|;
    while i > 0
      invariant 0 <= i <= |layers| && r == OnlyPace(layers[i..])
    {
      i := i - 1;
      assert layers[i..][1..] == layers[i + 1..];
      if layers[i].axis == "pace" {
        r := [layers[i]] + r;
      }
    }
  }

  /** A phrase replaces the field's geometry and its spatial layers. */
  method ApplyLayeredPhrase(s: Score, edit: Edit) returns (r: Option<Score>)
    ensures r == Phrased(s, edit)
  {
    var reshapes := ReshapesField(s, edit);
    if edit.phrase.None? {
      return Some(if reshapes then s.(phrase := None) else s);
    }
    if reshapes {
      return None;
    }
    hide ReshapesField, PhraseShaped, OnlyPace;
    var next := ApplyPhraseGeometry(s.(phrase := edit.phrase), edit.phrase.value.groups);
    var layers := KeepPace(s.layers);
    r := Some(next.(layers := layers));
  }

  /** Apply an edit to a copy; a rejected edit leaves the score as it was. */
  method ApplyLayeredEdit(edit: Edit, current: Score, limits: Limits, seed: nat) returns (r: Score, accepted: bool)
    ensures accepted <==> Edited(edit, current, limits, seed).Some?
    ensures accepted ==> r == Edited(edit, current, limits, seed).value
    ensures !accepted ==> r == current
  {
    hide Merged, Phrased, GeometryEdited, ApplyLayers, Finished, Limited, WithPace;
    r, accepted := current, false;
    var merged := ApplyControls(current, edit.controls, edit.changes);
    if merged.None? {
      return;
    }
    var next := Limited(WithPace(merged.value, edit.pace), edit, limits);
    var phrased := ApplyLayeredPhrase(next, edit);
    if phrased.None? {
      return;
    }
    var shaped := GeometryEdited(phrased.value, edit);
    if shaped.None? {
      return;
    }
    var widened := Widened(shaped.value, edit.width);
    if widened.None? {
      return;
    }
    next := widened.value;
    var layers := ApplyLayeredLayers(next.layers, edit.layers, edit.remove, next.phrase.Some?);
    if layers.None? {
      return;
    }
    var finished := Finished(next.(layers := layers.value), edit, limits, seed);
    if finished.Some? {
      r, accepted := finished.value, true;
    }
  }

  // ----- What the parser lets through -----

  /** A layer edit with nothing beside its axis. */
  function BareEdit(axis: string): LayerEdit { LayerEdit(axis, None, None, None, None, None, None, None, None) }

  /** The parser wants an axis and at least one changed attribute of every layer edit. */
  predicate Parsable(edit: Edit) {
    forall e | e in edit.layers :: e != BareEdit(e.axis)
  }

  /** A reply's edit, parsed and applied. */
  function Replied(edit: Edit, current: Score, limits: Limits, seed: nat): Option<Score> {
    if Parsable(edit) then Edited(edit, current, limits, seed) else None
  }

  /** Refuse a layer edit that changes nothing, then apply; a refused reply leaves the score as it was. */
  method ParseLayeredReply(edit: Edit, current: Score, limits: Limits, seed: nat) returns (r: Score, accepted: bool)
    ensures accepted <==> Replied(edit, current, limits, seed).Some?
    ensures accepted ==> r == Replied(edit, current, limits, seed).value
    ensures !accepted ==> r == current
  {
    hide Edited;
    var i := 0;
    while i < |edit.layers|
      invariant 0 <= i <= |edit.layers|
      invariant forall j | 0 <= j < i :: edit.layers[j] != BareEdit(edit.layers[j].axis)
    {
      if edit.layers[i] == BareEdit(edit.layers[i].axis) {
        return current, false;
      }
      i := i + 1;
    }
    r, accepted := ApplyLayeredEdit(edit, current, limits, seed);
  }
}

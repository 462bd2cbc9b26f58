/**
  The hosted grammar: one set or adjust operation per control, one operation
  per axis. It is translated into the transactional edit.
 */
module HostedLayered {
  import opened Options
  import opened SqlOrder
  import opened LayeredScore
  import opened LayeredGeometry
  import opened LayeredLayers
  import opened LayeredEdit
  import opened LayeredLaws

  /** `Malformed` is anything but exactly an operation and a value. */
  datatype Operation = Set(value: Value) | Adjust(value: Value) | Malformed

  datatype PeriodOp = SetPeriod(cycles: int) | AdjustPeriod(shift: int)

  datatype Patch = Patch(amount: Option<int>, period: Option<PeriodOp>, phase: Option<int>, shape: Option<string>,
                         lowRate: Option<int>, inverted: Option<bool>, follow: Option<Follow>)

  datatype LayerOp =
    | EditLayer(patch: Patch)
    | RemoveLayer
    | FollowLayer(source: string, relation: string, amount: int, lowRate: int)
    | MalformedLayer

  datatype Hosted = Hosted(controls: map<string, Operation>, layers: map<string, LayerOp>, evolve: bool)

  predicate WellFormed(op: Operation) { !op.Malformed? && op.value != Null }

  predicate LayerWellFormed(axis: string, op: LayerOp) { !op.MalformedLayer? && (op.FollowLayer? ==> axis == "pace") }

  predicate Translatable(h: Hosted) {
    && (forall name | name in h.controls :: WellFormed(h.controls[name]))
    && (forall axis | axis in h.layers :: LayerWellFormed(axis, h.layers[axis]))
  }

  function Absolute(h: Hosted): Fields {
    map name | name in h.controls && h.controls[name].Set? :: h.controls[name].value
  }
  function Relative(h: Hosted): Fields {
    map name | name in h.controls && h.controls[name].Adjust? :: h.controls[name].value
  }

  function Translated(axis: string, op: LayerOp): LayerEdit
    requires op.EditLayer? || op.FollowLayer?
  {
    match op
    case EditLayer(p) =>
      LayerEdit(axis, p.amount,
                if p.period.Some? && p.period.value.SetPeriod? then Some(p.period.value.cycles) else None,
                if p.period.Some? && p.period.value.AdjustPeriod? then Some(p.period.value.shift) else None,
                p.phase, p.shape, p.lowRate, p.inverted, p.follow)
    case FollowLayer(source, relation, amount, lowRate) =>
      LayerEdit("pace", Some(amount), None, None, None, None, Some(lowRate), None, Some(Follow(source, relation)))
  }

  function EditsIn(h: Hosted, order: seq<string>): (r: seq<LayerEdit>)
    requires Translatable(h) && forall a | a in order :: a in h.layers
    ensures forall e | e in r ::
              e.axis in order && !h.layers[e.axis].RemoveLayer? && e == Translated(e.axis, h.layers[e.axis])
    ensures forall a | a in order && !h.layers[a].RemoveLayer? :: Translated(a, h.layers[a]) in r
  {
    if order == [] then []
    else
      var rest := EditsIn(h, order[1..]);
      if h.layers[order[0]].RemoveLayer? then rest else [Translated(order[0], h.layers[order[0]])] + rest
  }

  function RemovalsIn(h: Hosted, order: seq<string>): (r: seq<string>)
    requires forall a | a in order :: a in h.layers
    ensures forall a :: a in r <==> a in order && h.layers[a].RemoveLayer?
  {
    if order == [] then []
    else
      var rest := RemovalsIn(h, order[1..]);
      if h.layers[order[0]].RemoveLayer? then [order[0]] + rest else rest
  }

  /** `order` lists the named axes once each; the source sorts them. */
  ghost predicate Lists(order: seq<string>, h: Hosted) {
    LayeredLayers.Distinct(order) && forall a :: a in order <==> a in h.layers
  }

  function Normalized(h: Hosted, order: seq<string>): Option<Edit>
    requires forall a | a in order :: a in h.layers
  {
    if !Translatable(h) then None
    else Some(Edit(None, None, "", None, Absolute(h), Relative(h), EditsIn(h, order), RemovalsIn(h, order), h.evolve))
  }

  /** Split the controls by operation; the runtime visits the map in any order. */
  method SplitControls(h: Hosted) returns (r: Option<(Fields, Fields)>)
    ensures r.None? <==> exists name :: name in h.controls && !WellFormed(h.controls[name])
    ensures r.Some? ==> r.value == (Absolute(h), Relative(h))
  {
    var absolute: Fields, relative: Fields := map[], map[];
    var unread := h.controls.Keys;
    while unread != {}
      invariant unread <= h.controls.Keys
      invariant forall name | name in h.controls.Keys - unread :: WellFormed(h.controls[name])
      invariant absolute == map name | name in h.controls && h.controls[name].Set? && name !in unread ::
                  h.controls[name].value
      invariant relative == map name | name in h.controls && h.controls[name].Adjust? && name !in unread ::
                  h.controls[name].value
      decreases unread
    {
      var name :| name in unread;
      if !WellFormed(h.controls[name]) {
        return None;
      }
      if h.controls[name].Set? {
        absolute := absolute[name := h.controls[name].value];
      } else {
        relative := relative[name := h.controls[name].value];
      }
      unread := unread - {name};
    }
    assert absolute == Absolute(h) && relative == Relative(h);
    r := Some((absolute, relative));
  }

  lemma NextAxis(h: Hosted, order: seq<string>, i: nat)
    requires Translatable(h) && (forall a | a in order :: a in h.layers) && i < |order|
    ensures EditsIn(h, order[i..]) ==
            (if h.layers[order[i]].RemoveLayer? then [] else [Translated(order[i], h.layers[order[i]])])
            + EditsIn(h, order[i + 1..])
    ensures RemovalsIn(h, order[i..]) ==
              (if h.layers[order[i]].RemoveLayer? then [order[i]] else []) + RemovalsIn(h, order[i + 1..])
  {
    assert order[i..][0] == order[i] && order[i..][1..] == order[i + 1..];
    hide Translated;
  }

  lemma TranslatableByAxis(h: Hosted, order: seq<string>)
    requires (forall name | name in h.controls :: WellFormed(h.controls[name])) && Lists(order, h)
    ensures Translatable(h) <==> forall j | 0 <= j < |order| :: LayerWellFormed(order[j], h.layers[order[j]])
  {
    hide WellFormed, LayerWellFormed;
    if forall j | 0 <= j < |order| :: LayerWellFormed(order[j], h.layers[order[j]]) {
      forall axis | axis in h.layers ensures LayerWellFormed(axis, h.layers[axis]) {
        assert axis in order;
      }
    }
    forall j | 0 <= j < |order| ensures order[j] in h.layers {
      assert order[j] in order;
    }
  }

  /** Check each named axis's operation. */
  method CheckLayers(h: Hosted, order: seq<string>) returns (ok: bool)
    requires (forall name | name in h.controls :: WellFormed(h.controls[name])) && Lists(order, h)
    ensures ok <==> Translatable(h)
  {
    TranslatableByAxis(h, order);
    hide WellFormed, Translatable, LayerWellFormed;
    var i := 0;
    while i < |order|
      invariant 0 <= i <= |order|
      invariant forall j | 0 <= j < i :: LayerWellFormed(order[j], h.layers[order[j]])
    {
      assert order[i] in order;
      if !LayerWellFormed(order[i], h.layers[order[i]]) {
        return false;
      }
      i := i + 1;
    }
    ok := true;
  }

  /** Build the layer edits and the removals, axis by axis. */
  method SplitLayers(h: Hosted, order: seq<string>) returns (edits: seq<LayerEdit>, remove: seq<string>)
    requires Translatable(h) && forall a | a in order :: a in h.layers
    ensures edits == EditsIn(h, order) && remove == RemovalsIn(h, order)
  {
    hide EditsIn, RemovalsIn, Translated;
    edits, remove := [], [];
    var i := 0;
    assert order[0..] == order;
    while i < |order|
      invariant 0 <= i <= |order|
      invariant EditsIn(h, order) == edits + EditsIn(h, order[i..])
      invariant RemovalsIn(h, order) == remove + RemovalsIn(h, order[i..])
    {
      var axis := order[i];
      NextAxis(h, order, i);
      if h.layers[axis].RemoveLayer? {
        remove := remove + [axis];
      } else {
        edits := edits + [Translated(axis, h.layers[axis])];
      }
      i := i + 1;
    }
    NoAxesLeft(h, order);
  }

  lemma NoAxesLeft(h: Hosted, order: seq<string>)
    requires Translatable(h) && forall a | a in order :: a in h.layers
    ensures EditsIn(h, order[|order|..]) == [] && RemovalsIn(h, order[|order|..]) == []
  {}

  /** Translate controls and layers; anything malformed refuses the whole edit. */
  method NormalizeOperations(h: Hosted, order: seq<string>) returns (r: Option<Edit>)
    requires Lists(order, h)
    ensures r == Normalized(h, order)
  {
    hide EditsIn, RemovalsIn, Translated, WellFormed, LayerWellFormed, Absolute, Relative;
    var fields := SplitControls(h);
    if fields.None? {
      return None;
    }
    var ok := CheckLayers(h, order);
    if !ok {
      return None;
    }
    var edits, remove := SplitLayers(h, order);
    r := Some(Edit(None, None, "", None, fields.value.0, fields.value.1, edits, remove, h.evolve));
  }

  // ----- The translation's meaning -----

  lemma {:induction false} EditsInDistinct(h: Hosted, order: seq<string>)
    requires Translatable(h) && (forall a | a in order :: a in h.layers) && LayeredLayers.Distinct(order)
    ensures DistinctEdits(EditsIn(h, order)) && LayeredLayers.Distinct(RemovalsIn(h, order))
    ensures |EditsIn(h, order)| + |RemovalsIn(h, order)| == |order|
  {
    if order != [] {
      var first, rest := order[0], order[1..];
      EditsInDistinct(h, rest);
      forall a | a in rest ensures a != first {
        var j :| 0 <= j < |rest| && rest[j] == a;
        assert order[j + 1] == a;
      }
      if !h.layers[first].RemoveLayer? {
        assert EditsIn(h, order)[1..] == EditsIn(h, rest);
        RestDistinct(EditsIn(h, order));
      } else {
        DistinctCons(first, RemovalsIn(h, rest));
      }
    }
  }

  /**
    The grammar cannot express an overlap: no control is both set and shifted,
    no period both set and shifted, no axis edited twice or edited and removed.
   */
  lemma TranslationNeverOverlaps(h: Hosted, order: seq<string>)
    requires Lists(order, h) && Translatable(h)
    ensures var edit := Normalized(h, order).value;
            && (forall name :: !(name in edit.controls && name in edit.changes))
            && DistinctEdits(edit.layers) && LayeredLayers.Distinct(edit.remove)
            && (forall e | e in edit.layers :: !(e.period.Some? && e.periodChange.Some?) && e.axis !in edit.remove)
  {
    EditsInDistinct(h, order);
  }

  /** The timing link an operation asks for: a follow operation's own, or one carried by an edit. */
  function Link(op: LayerOp): Option<Follow> {
    match op
    case EditLayer(p) => p.follow
    case FollowLayer(source, relation, _, _) => Some(Follow(source, relation))
    case _ => None
  }

  /** What an operation asks of a number. */
  function Direct(h: Hosted, name: string, prior: int): int {
    if name !in h.controls then prior
    else
      match h.controls[name]
      case Set(Int(n)) => n
      case Adjust(Int(n)) => prior + n
      case _ => prior
  }

  lemma DirectIsResolved(h: Hosted, order: seq<string>, name: string, prior: int)
    requires Lists(order, h) && Translatable(h)
    ensures Resolved(Normalized(h, order).value, name, prior) == Direct(h, name, prior)
  {
    hide EditsIn, RemovalsIn;
  }

  /** What an operation asks of an axis that held this layer. */
  function DirectLayer(h: Hosted, axis: string, prior: Option<Layer>): Option<Layer> {
    if axis !in h.layers then prior
    else
      match h.layers[axis]
      case RemoveLayer => None
      case EditLayer(p) =>
        var l := Or(prior, Fresh(axis));
        Some(l.(amount := Or(p.amount, l.amount), phase := Or(p.phase, l.phase), shape := Or(p.shape, l.shape),
                lowRate := Or(p.lowRate, l.lowRate), inverted := Or(p.inverted, l.inverted),
                period := if p.period.None? then l.period
                          else if p.period.value.SetPeriod? then p.period.value.cycles
                          else l.period + p.period.value.shift))
      case FollowLayer(_, _, amount, lowRate) => Some(Or(prior, Fresh(axis)).(amount := amount, lowRate := lowRate))
      case MalformedLayer => prior
  }

  /** An updated layer is the layer the operation describes. */
  lemma UpdatedIsDirect(h: Hosted, axis: string, prior: Option<Layer>)
    requires axis in h.layers && (h.layers[axis].EditLayer? || h.layers[axis].FollowLayer?)
             && LayerWellFormed(axis, h.layers[axis])
    ensures Some(Updated(Or(prior, Fresh(axis)), Translated(axis, h.layers[axis]))) == DirectLayer(h, axis, prior)
    ensures Translated(axis, h.layers[axis]).axis == axis
  {}

  lemma DirectIsResult(h: Hosted, order: seq<string>, layers: seq<Layer>, axis: string)
    requires Lists(order, h) && Translatable(h)
    ensures ResultOn(layers, EditsIn(h, order), AsSet(RemovalsIn(h, order)), axis) ==
              DirectLayer(h, axis, On(layers, axis))
  {
    hide On, Updated, Translated, EditsIn, RemovalsIn, EditFor, DistinctEdits;
    var edits := EditsIn(h, order);
    EditsInDistinct(h, order);
    assert axis in AsSet(RemovalsIn(h, order)) <==> axis in h.layers && h.layers[axis].RemoveLayer?;
    if axis in h.layers && !h.layers[axis].RemoveLayer? {
      assert axis in order;
      UpdatedIsDirect(h, axis, On(layers, axis));
      OnlyEditOf(edits, Translated(axis, h.layers[axis]));
    } else {
      assert EditFor(edits, axis).None?;
    }
  }

  lemma SpeedIsDirect(h: Hosted, current: Score, limits: Limits)
    ensures "speed_percent" in Relative(h) <==> "speed_percent" in h.controls && h.controls["speed_percent"].Adjust?
    ensures "speed_percent" in Relative(h) && Relative(h)["speed_percent"].Int? ==>
              Direct(h, "speed_percent", current.speed) == current.speed + Relative(h)["speed_percent"].n
    ensures "speed_percent" !in Relative(h) ==>
              Direct(h, "speed_percent", current.speed) == IntAt(Absolute(h), "speed_percent", current.speed)
  {}

  /**
    The layers of an accepted hosted edit: each axis as its operation says, a
    followed pace with its source's final timing.
   */
  lemma HostedLayersMeanWhatTheySay(h: Hosted, order: seq<string>, current: Score, limits: Limits, seed: nat,
                                    axis: string)
    requires Lists(order, h) && Translatable(h) && DistinctAxes(current.layers)
    requires Edited(Normalized(h, order).value, current, limits, seed).Some?
    ensures var next := Edited(Normalized(h, order).value, current, limits, seed).value;
            var direct := DirectLayer(h, axis, On(current.layers, axis));
            if axis in h.layers && Link(h.layers[axis]).Some? then
              var link := Link(h.layers[axis]).value;
              var source := On(next.layers, link.axis);
              && axis == "pace" && source.Some? && direct.Some?
              && source == DirectLayer(h, link.axis, On(current.layers, link.axis))
              && On(next.layers, axis) == Some(Linked(direct.value, source.value, link.relation))
            else On(next.layers, axis) == direct
  {
    var edit := Normalized(h, order).value;
    hide On, EditsIn, RemovalsIn, Reshaped, EditAll, FollowAll, Without, IndexOf, Linked, Updated, Translatable,
         Conforms, Valid, DistinctAxes, DirectLayer, ResultOn;
    var s := Reshaped(edit, current, limits).value;
    NothingSpatialIsKept(edit, current, limits);
    ApplyLayersIs(s.layers, edit.layers, edit.remove, s.phrase.Some?);
    hide ApplyLayers;
    DirectIsResult(h, order, s.layers, axis);
    FollowedDirectly(h, order, s.layers, edit, axis, s.phrase.Some?);
  }

  lemma FollowedDirectly(h: Hosted, order: seq<string>, layers: seq<Layer>, edit: Edit, axis: string, counted: bool)
    requires Lists(order, h) && Translatable(h) && DistinctAxes(layers) && edit == Normalized(h, order).value
    requires ApplyLayers(layers, edit.layers, edit.remove, counted).Some?
    ensures var r := ApplyLayers(layers, edit.layers, edit.remove, counted).value;
            var direct := DirectLayer(h, axis, On(layers, axis));
            if axis in h.layers && Link(h.layers[axis]).Some? then
              var link := Link(h.layers[axis]).value;
              var source := On(r, link.axis);
              && axis == "pace" && source.Some? && direct.Some?
              && source == DirectLayer(h, link.axis, On(layers, link.axis))
              && On(r, axis) == Some(Linked(direct.value, source.value, link.relation))
            else On(r, axis) == direct
  {
    hide On, EditAll, FollowAll, Without, IndexOf, Linked, Updated, ApplyLayers, DirectLayer, ResultOn;
    var edits := edit.layers;
    ApplyLayersIs(layers, edits, edit.remove, counted);
    EditsInDistinct(h, order);
    DirectIsResult(h, order, layers, axis);
    if axis in h.layers && Link(h.layers[axis]).Some? {
      assert axis in order;
      var e := Translated(axis, h.layers[axis]);
      OnlyEditOf(edits, e);
      DirectIsResult(h, order, layers, Link(h.layers[axis]).value.axis);
      hide EditsIn, RemovalsIn, Translatable, LayersOk, DistinctEdits;
      var edited := EditAll(Without(layers, AsSet(edit.remove)), edits, AsSet(edit.remove)).value;
      assert CanFollow(edited, e, counted);
    } else if axis == "pace" && axis in h.layers && !h.layers[axis].RemoveLayer? {
      assert axis in order;
      OnlyEditOf(edits, Translated(axis, h.layers[axis]));
    }
  }

  // ----- Translating and applying is editing directly -----

  function DirectMode(h: Hosted, prior: string): string {
    if "variation_mode" in h.controls && h.controls["variation_mode"].Set? && h.controls["variation_mode"].value.Text?
    then h.controls["variation_mode"].value.s else prior
  }

  /** A control operation the edit can carry out: a known control, and only small integer shifts. */
  predicate ControlAsked(name: string, op: Operation) {
    WellFormed(op) && IsControl(name)
        && (op.Adjust? ==> name != "variation_mode" && op.value.Int? && -100 <= op.value.n <= 100)
  }

  /** The edit touches the field's shape: a spatial layer, or one of the controls that own it. */
  predicate ReshapesDirectly(h: Hosted, current: Score) {
    || (exists a :: a in h.layers && a != "pace" && (h.layers[a].RemoveLayer? ==> On(current.layers, a).Some?))
    || (exists name :: name in h.controls && Reshaping(name))
  }

  function DirectPhrase(h: Hosted, current: Score): Option<Phrase> {
    if ReshapesDirectly(h, current) then None else current.phrase
  }

  function DirectOn(h: Hosted, current: Score, axis: string): Option<Layer> {
    DirectLayer(h, axis, On(current.layers, axis))
  }

  /** A link that resolves: pace to an active periodic layer, in a field no phrase owns. */
  predicate LinkAsked(h: Hosted, current: Score, axis: string, link: Follow) {
    var source := DirectOn(h, current, link.axis);
    && axis == "pace" && DirectPhrase(h, current).None?
    && (link.axis == "center" || link.axis == "range") && (link.relation == "same" || link.relation == "opposite")
    && source.Some? && source.value.amount != 0 && source.value.shape != "drift"
  }

  /** A layer operation the edit can carry out, its link against the layers the other operations leave. */
  predicate LayerAsked(h: Hosted, current: Score, axis: string)
    requires axis in h.layers
  {
    && IsAxis(axis)
    && match h.layers[axis]
       case RemoveLayer => true
       case EditLayer(p) =>
         && (p.period.Some? && p.period.value.AdjustPeriod? ==> On(current.layers, axis).Some?)
         && (p.follow.Some? ==>
               && p.period.None? && p.phase.None? && p.shape.None? && p.inverted.None?
               && LinkAsked(h, current, axis, p.follow.value))
       case FollowLayer(source, relation, _, _) => LinkAsked(h, current, axis, Follow(source, relation))
       case MalformedLayer => false
  }

  predicate Asked(h: Hosted, current: Score) {
    && (forall name | name in h.controls :: ControlAsked(name, h.controls[name]))
    && (forall axis | axis in h.layers :: LayerAsked(h, current, axis))
  }

  /** The layer an axis ends with: as its operation says, and for a followed pace with its source's timing. */
  function FinalOn(h: Hosted, current: Score, axis: string): Option<Layer> {
    var direct := DirectOn(h, current, axis);
    if axis in h.layers && Link(h.layers[axis]).Some? && direct.Some?
        && DirectOn(h, current, Link(h.layers[axis]).value.axis).Some? then
      Some(Linked(direct.value, DirectOn(h, current, Link(h.layers[axis]).value.axis).value,
                  Link(h.layers[axis]).value.relation))
    else direct
  }

  function Listed(l: Option<Layer>): seq<Layer> { if l.Some? then [l.value] else [] }

  function DirectLayers(h: Hosted, current: Score): seq<Layer> {
    Listed(FinalOn(h, current, "range")) + Listed(FinalOn(h, current, "center")) + Listed(FinalOn(h, current, "pace"))
  }

  /** The controls set or shifted one by one, a relative speed held to the limits, before the layers. */
  function DirectControls(h: Hosted, current: Score, limits: Limits): Score {
    var speed := Direct(h, "speed_percent", current.speed);
    current.(phrase := DirectPhrase(h, current), min := Direct(h, "min_percent", current.min),
             max := Direct(h, "max_percent", current.max),
             speed := if "speed_percent" in h.controls && h.controls["speed_percent"].Adjust?
                      then Min(Max(speed, limits.speedMin), limits.speedMax) else speed,
             anchor := Direct(h, "anchor_percent", current.anchor),
             memory := Direct(h, "memory_cycles", current.memory),
             paceVariation := Direct(h, "pace_variation_percent", current.paceVariation),
             mode := DirectMode(h, current.mode))
  }

  /** The whole edit made directly: every field it does not name stays. */
  function DirectScore(h: Hosted, current: Score, limits: Limits, seed: nat): Score {
    DirectControls(h, current, limits).(seed := if h.evolve then seed else current.seed,
                                        layers := DirectLayers(h, current))
  }

  lemma ControlsTranslate(h: Hosted)
    requires Translatable(h)
    ensures ControlsOk(Absolute(h), Relative(h)) <==> forall name | name in h.controls ::
              ControlAsked(name, h.controls[name])
  {
    hide IsControl;
    if ControlsOk(Absolute(h), Relative(h)) {
      forall name | name in h.controls ensures ControlAsked(name, h.controls[name]) {
        assert name in Absolute(h) || name in Relative(h);
      }
    }
  }

  lemma ModeIsDirect(h: Hosted, prior: string)
    ensures TextAt(Absolute(h), "variation_mode", prior) == DirectMode(h, prior)
  {}

  lemma ReshapesTranslate(h: Hosted, order: seq<string>, current: Score, s: Score)
    requires Lists(order, h) && Translatable(h) && s.layers == current.layers
    ensures ReshapesField(s, Normalized(h, order).value) <==> ReshapesDirectly(h, current)
  {
    hide On, Translated;
    var edit := Normalized(h, order).value;
    var edits, remove := EditsIn(h, order), RemovalsIn(h, order);
    forall a | a in h.layers && !h.layers[a].RemoveLayer?
      ensures Translated(a, h.layers[a]) in edits && Translated(a, h.layers[a]).axis == a
    {
      assert a in order;
      TranslatedAxis(h, a);
    }
    forall name ensures Specified(edit, name) <==> name in h.controls {
      assert name in h.controls ==> WellFormed(h.controls[name]);
    }
    SpatialEdits(h, order, s);
    hide EditsIn, RemovalsIn, Specified, Absolute, Relative, WellFormed, LayerWellFormed;
    assert (exists name :: name in h.controls && Reshaping(name)) <==>
      ("min_percent" in h.controls || "max_percent" in h.controls || "anchor_percent" in h.controls
       || "variation_mode" in h.controls);
  }

  lemma TranslatedAxis(h: Hosted, a: string)
    requires Translatable(h) && a in h.layers && !h.layers[a].RemoveLayer?
    ensures Translated(a, h.layers[a]).axis == a
  {
    assert LayerWellFormed(a, h.layers[a]);
  }

  lemma SpatialEdits(h: Hosted, order: seq<string>, s: Score)
    requires Lists(order, h) && Translatable(h)
    ensures (exists a :: a in h.layers && a != "pace" && (h.layers[a].RemoveLayer? ==> On(s.layers, a).Some?)) <==>
            || (exists e :: e in EditsIn(h, order) && e.axis != "pace")
            || (exists a :: a in RemovalsIn(h, order) && a != "pace" && On(s.layers, a).Some?)
  {
    hide On, Translated;
    var edits, remove := EditsIn(h, order), RemovalsIn(h, order);
    if exists a :: a in h.layers && a != "pace" && (h.layers[a].RemoveLayer? ==> On(s.layers, a).Some?) {
      var a :| a in h.layers && a != "pace" && (h.layers[a].RemoveLayer? ==> On(s.layers, a).Some?);
      assert a in order;
      if h.layers[a].RemoveLayer? {
        assert a in remove;
      } else {
        TranslatedAxis(h, a);
        assert Translated(a, h.layers[a]) in edits;
      }
    }
    if exists e :: e in edits && e.axis != "pace" {
      var e :| e in edits && e.axis != "pace";
      assert e.axis in order;
    }
  }

  lemma TimedIsDirect(h: Hosted, order: seq<string>, current: Score, limits: Limits)
    requires Lists(order, h) && Translatable(h) && ControlsOk(Absolute(h), Relative(h))
    ensures Timed(Normalized(h, order).value, current, limits) ==
              DirectControls(h, current, limits).(phrase := current.phrase)
  {
    hide EditsIn, RemovalsIn, Translatable, NumberAfter, TextAt, Direct, DirectMode, DirectPhrase, Min, Max;
    DirectIsResolved(h, order, "min_percent", current.min);
    DirectIsResolved(h, order, "max_percent", current.max);
    DirectIsResolved(h, order, "speed_percent", current.speed);
    DirectIsResolved(h, order, "anchor_percent", current.anchor);
    DirectIsResolved(h, order, "memory_cycles", current.memory);
    DirectIsResolved(h, order, "pace_variation_percent", current.paceVariation);
    ModeIsDirect(h, current.mode);
    SpeedIsDirect(h, current, limits);
    hide Absolute, Relative, ControlsOk, Lists;
  }

  /** Up to its layers and seed, the translated edit is the direct one. */
  lemma ReshapedIsDirect(h: Hosted, order: seq<string>, current: Score, limits: Limits)
    requires Lists(order, h) && Translatable(h) && ControlsOk(Absolute(h), Relative(h))
    ensures Reshaped(Normalized(h, order).value, current, limits) == Some(DirectControls(h, current, limits))
  {
    var edit := Normalized(h, order).value;
    TimedIsDirect(h, order, current, limits);
    var timed := Timed(edit, current, limits);
    ReshapesTranslate(h, order, current, timed);
    UnshapedIsSame(DirectControls(h, current, limits));
    hide DirectControls, ReshapesField, ReshapesDirectly, Shaped, EditsIn, RemovalsIn, Merged, Limited, ControlsOk,
         Absolute, Relative, Translatable;
    assert Phrased(timed, edit) == Some(timed.(phrase := DirectPhrase(h, current)));
    DirectControlsPhrase(h, current, limits);
  }

  lemma DirectControlsPhrase(h: Hosted, current: Score, limits: Limits)
    ensures var s := DirectControls(h, current, limits);
            s == s.(phrase := current.phrase).(phrase := DirectPhrase(h, current)) && s.layers == current.layers
                && s.seed == current.seed
            && s.phrase == DirectPhrase(h, current)
  {
    hide Direct, DirectMode, DirectPhrase, Min, Max;
  }

  /**
    Every field after an accepted hosted edit: each named control set or
    shifted, speed shifts held to the saved limits, the phrase dropped if the
    edit reshapes the field, and everything else as it was.
   */
  lemma HostedControlsMeanWhatTheySay(h: Hosted, order: seq<string>, current: Score, limits: Limits, seed: nat)
    requires Lists(order, h) && Translatable(h) && Edited(Normalized(h, order).value, current, limits, seed).Some?
    ensures var next := Edited(Normalized(h, order).value, current, limits, seed).value;
            && next.min == Direct(h, "min_percent", current.min) && next.max == Direct(h, "max_percent", current.max)
            && next.anchor == Direct(h, "anchor_percent", current.anchor)
            && next.memory == Direct(h, "memory_cycles", current.memory)
            && next.paceVariation == Direct(h, "pace_variation_percent", current.paceVariation)
            && next.mode == DirectMode(h, current.mode)
            && next.speed == (var s := Direct(h, "speed_percent", current.speed);
                              if "speed_percent" in h.controls && h.controls["speed_percent"].Adjust?
                              then Min(Max(s, limits.speedMin), limits.speedMax) else s)
            && next.phrase == (if ReshapesDirectly(h, current) then None else current.phrase)
            && next.seed == (if h.evolve then seed else current.seed)
            && next.floor == current.floor && next.ceiling == current.ceiling && next.pace == current.pace
            && next.softness == current.softness && next.hold == current.hold && next.loopCycles == current.loopCycles
  {
    var edit := Normalized(h, order).value;
    hide Edited, Reshaped, EditsIn, RemovalsIn, Translatable, Absolute, Relative, ControlsOk, ReshapesDirectly, Direct,
         DirectMode, Min, Max;
    EditedFields(edit, current, limits, seed);
    ReshapedKeepsTiming(edit, current, limits);
    ReshapedIsDirect(h, order, current, limits);
  }

  lemma FewAxes(axes: seq<string>)
    requires LayeredLayers.Distinct(axes) && forall a | a in axes :: IsAxis(a)
    ensures |axes| <= 3
  {
    DistinctBySize(axes);
    forall a | a in AsSet(axes) ensures a in {"range", "center", "pace"} {
      assert a in axes;
    }
    SubsetSize(AsSet(axes), {"range", "center", "pace"});
  }

  lemma EditAdmissible(h: Hosted, current: Score, order: seq<string>, e: LayerEdit)
    requires Lists(order, h) && Translatable(h) && e in EditsIn(h, order)
    ensures e.axis in h.layers && !h.layers[e.axis].RemoveLayer? && e == Translated(e.axis, h.layers[e.axis])
    ensures !(e.period.Some? && e.periodChange.Some?)
    ensures e.axis !in RemovalsIn(h, order)
    ensures e.periodChange.Some? <==>
            h.layers[e.axis].EditLayer? && h.layers[e.axis].patch.period.Some?
                && h.layers[e.axis].patch.period.value.AdjustPeriod?
  {
    assert e.axis in order;
  }

  lemma LayersOkDirectly(h: Hosted, current: Score, order: seq<string>)
    requires Lists(order, h) && Translatable(h) && DistinctAxes(current.layers)
    requires forall axis | axis in h.layers :: LayerAsked(h, current, axis)
    ensures LayersOk(current.layers, EditsIn(h, order), RemovalsIn(h, order))
  {
    var edits, remove := EditsIn(h, order), RemovalsIn(h, order);
    EditsInDistinct(h, order);
    assert |order| <= 3 by {
      forall a | a in order ensures IsAxis(a) {
        assert LayerAsked(h, current, a);
      }
      FewAxes(order);
    }
    hide On, Without, DistinctEdits, EditsIn, RemovalsIn, Translated, IsAxis;
    forall a | a in remove ensures IsAxis(a) {
      assert LayerAsked(h, current, a);
    }
    forall e | e in edits
      ensures Admissible(e, AsSet(remove))
              && (e.periodChange.Some? ==> On(Without(current.layers, AsSet(remove)), e.axis).Some?)
    {
      EditAdmissible(h, current, order, e);
      assert LayerAsked(h, current, e.axis);
      WithoutOn(current.layers, AsSet(remove), e.axis);
    }
  }

  lemma LayersAskedBack(h: Hosted, current: Score, order: seq<string>, axis: string)
    requires Lists(order, h) && Translatable(h) && axis in h.layers
    requires LayersOk(current.layers, EditsIn(h, order), RemovalsIn(h, order))
    ensures IsAxis(axis) && !h.layers[axis].MalformedLayer?
    ensures h.layers[axis].EditLayer? && h.layers[axis].patch.period.Some?
            && h.layers[axis].patch.period.value.AdjustPeriod? ==>
              On(current.layers, axis).Some?
  {
    var edits, remove := EditsIn(h, order), RemovalsIn(h, order);
    assert axis in order;
    assert LayerWellFormed(axis, h.layers[axis]);
    hide On, Without, DistinctEdits, EditsIn, RemovalsIn, IsAxis;
    if h.layers[axis].RemoveLayer? {
      assert axis in remove;
    } else {
      var e := Translated(axis, h.layers[axis]);
      assert e in edits && e.axis == axis;
      WithoutOn(current.layers, AsSet(remove), axis);
    }
  }

  /** The links of a translated edit resolve exactly as asked. */
  lemma LinksAsked(h: Hosted, current: Score, order: seq<string>, edited: seq<Layer>, counted: bool)
    requires Lists(order, h) && Translatable(h) && counted == DirectPhrase(h, current).Some?
    requires forall a :: On(edited, a) == DirectOn(h, current, a)
    requires forall axis | axis in h.layers && Link(h.layers[axis]).Some? :: IsAxis(axis)
    ensures FollowsOk(edited, EditsIn(h, order), counted) <==>
            forall axis | axis in h.layers && Link(h.layers[axis]).Some? :: LayerAsked(h, current, axis)
  {
    hide On, EditsIn, DirectPhrase, DirectLayer, IsAxis;
    var edits := EditsIn(h, order);
    forall axis | axis in h.layers && Link(h.layers[axis]).Some?
      ensures Translated(axis, h.layers[axis]) in edits
      ensures CanFollow(edited, Translated(axis, h.layers[axis]), counted) <==> LayerAsked(h, current, axis)
    {
      assert axis in order;
      assert LayerWellFormed(axis, h.layers[axis]);
      LinkIsAsked(h, current, edited, counted, axis);
    }
    forall e | e in edits && e.follow.Some?
      ensures e.axis in h.layers && Link(h.layers[e.axis]).Some? && e == Translated(e.axis, h.layers[e.axis])
    {
      assert e.axis in order;
    }
  }

  lemma LinkIsAsked(h: Hosted, current: Score, edited: seq<Layer>, counted: bool, axis: string)
    requires axis in h.layers && Link(h.layers[axis]).Some? && LayerWellFormed(axis, h.layers[axis])
             && counted == DirectPhrase(h, current).Some?
    requires forall a :: On(edited, a) == DirectOn(h, current, a)
    ensures CanFollow(edited, Translated(axis, h.layers[axis]), counted) <==> LayerAsked(h, current, axis)
  {
    hide On, DirectPhrase;
    assert On(edited, "pace") == DirectOn(h, current, "pace");
    assert axis == "pace" ==> DirectOn(h, current, "pace").Some?;
    assert On(edited, Link(h.layers[axis]).value.axis) == DirectOn(h, current, Link(h.layers[axis]).value.axis);
    hide DirectLayer, DirectOn;
  }

  /** The layer edit goes through exactly if every operation on an axis can be carried out. */
  lemma LayersAcceptedExactly(h: Hosted, order: seq<string>, current: Score, counted: bool)
    requires Lists(order, h) && Translatable(h) && DistinctAxes(current.layers)
             && counted == DirectPhrase(h, current).Some?
    ensures ApplyLayers(current.layers, EditsIn(h, order), RemovalsIn(h, order), counted).Some? <==>
            forall axis | axis in h.layers :: LayerAsked(h, current, axis)
  {
    var edits, remove := EditsIn(h, order), RemovalsIn(h, order);
    ApplyLayersIs(current.layers, edits, remove, counted);
    hide On, ApplyLayers, Without, EditAll, FollowAll, EditsIn, RemovalsIn, DirectPhrase, FollowsOk, ResultOn,
         DirectLayer, Translatable;
    if forall axis | axis in h.layers :: LayerAsked(h, current, axis) {
      LayersOkDirectly(h, current, order);
    }
    if LayersOk(current.layers, edits, remove) {
      forall axis | axis in h.layers ensures IsAxis(axis) {
        LayersAskedBack(h, current, order, axis);
      }
      var edited := EditAll(Without(current.layers, AsSet(remove)), edits, AsSet(remove)).value;
      forall a ensures On(edited, a) == DirectOn(h, current, a) {
        DirectIsResult(h, order, current.layers, a);
      }
      hide LayersOk;
      LinksAsked(h, current, order, edited, counted);
      UnlinkedAsked(h, current, order);
      hide LayerAsked;
    }
  }

  lemma UnlinkedAsked(h: Hosted, current: Score, order: seq<string>)
    requires Lists(order, h) && Translatable(h) && LayersOk(current.layers, EditsIn(h, order), RemovalsIn(h, order))
    ensures forall axis | axis in h.layers && !Link(h.layers[axis]).Some? :: LayerAsked(h, current, axis)
  {
    hide On, EditsIn, RemovalsIn, LayersOk, IsAxis, Translatable, Lists;
    forall axis | axis in h.layers && !Link(h.layers[axis]).Some? ensures LayerAsked(h, current, axis) {
      LayersAskedBack(h, current, order, axis);
    }
  }

  lemma ResultIsFinal(h: Hosted, order: seq<string>, current: Score, edit: Edit, counted: bool)
    requires Lists(order, h) && Translatable(h) && DistinctAxes(current.layers) && edit == Normalized(h, order).value
    requires ApplyLayers(current.layers, edit.layers, edit.remove, counted).Some?
    ensures forall axis ::
              On(ApplyLayers(current.layers, edit.layers, edit.remove, counted).value, axis) ==
              FinalOn(h, current, axis)
  {
    hide On, ApplyLayers, EditsIn, RemovalsIn, DirectLayer, Translatable, Linked;
    forall axis ensures On(ApplyLayers(current.layers, edit.layers, edit.remove, counted).value, axis) ==
        FinalOn(h, current, axis) {
      FollowedDirectly(h, order, current.layers, edit, axis, counted);
    }
  }

  lemma FinalAxis(h: Hosted, current: Score, axis: string)
    ensures FinalOn(h, current, axis).Some? ==> FinalOn(h, current, axis).value.axis == axis
  {
    var prior := On(current.layers, axis);
    assert prior.Some? ==> prior.value.axis == axis;
    hide On;
  }

  lemma OnListed(a: Option<Layer>, b: Option<Layer>, c: Option<Layer>, axis: string)
    requires a.Some? ==> a.value.axis == "range"
    requires b.Some? ==> b.value.axis == "center"
    requires c.Some? ==> c.value.axis == "pace"
    ensures DistinctAxes(Listed(a) + Listed(b) + Listed(c))
    ensures On(Listed(a) + Listed(b) + Listed(c), axis) ==
            if axis == "range" then a else if axis == "center" then b else if axis == "pace" then c else None
  {
    var layers := Listed(a) + Listed(b) + Listed(c);
    assert DistinctAxes(layers);
    var i := IndexOf(layers, axis);
    if a.Some? && axis == "range" {
      OnItself(layers, 0);
    } else if b.Some? && axis == "center" {
      OnItself(layers, |Listed(a)|);
      assert layers[|Listed(a)|] == b.value;
    } else if c.Some? && axis == "pace" {
      OnItself(layers, |Listed(a)| + |Listed(b)|);
      assert layers[|Listed(a)| + |Listed(b)|] == c.value;
    } else {
      assert forall j | 0 <= j < |layers| :: layers[j].axis != axis;
    }
  }

  lemma DirectLayersOn(h: Hosted, current: Score)
    requires LayersValid(current.layers) && forall axis | axis in h.layers :: IsAxis(axis)
    ensures DistinctAxes(DirectLayers(h, current))
    ensures forall axis :: On(DirectLayers(h, current), axis) == FinalOn(h, current, axis)
  {
    hide FinalOn;
    FinalAxis(h, current, "range");
    FinalAxis(h, current, "center");
    FinalAxis(h, current, "pace");
    OnListed(FinalOn(h, current, "range"), FinalOn(h, current, "center"), FinalOn(h, current, "pace"), "range");
    hide On, Listed;
    forall axis ensures On(DirectLayers(h, current), axis) == FinalOn(h, current, axis) {
      OnListed(FinalOn(h, current, "range"), FinalOn(h, current, "center"), FinalOn(h, current, "pace"), axis);
      if !IsAxis(axis) {
        NothingOffAxis(h, current, axis);
      }
    }
  }

  lemma NothingOffAxis(h: Hosted, current: Score, axis: string)
    requires LayersValid(current.layers) && (forall a | a in h.layers :: IsAxis(a)) && !IsAxis(axis)
    ensures FinalOn(h, current, axis).None?
  {
    var i := IndexOf(current.layers, axis);
    assert i < |current.layers| ==> LayerBounded(current.layers[i]);
  }

  /** A translated edit with its layers in place is the direct score up to layer order. */
  lemma FinishedDirectly(h: Hosted, order: seq<string>, current: Score, limits: Limits, seed: nat, layers: seq<Layer>)
    requires Lists(order, h) && Translatable(h) && LayersValid(current.layers)
             && (forall axis | axis in h.layers :: IsAxis(axis))
    requires DistinctAxes(layers) && forall axis :: On(layers, axis) == FinalOn(h, current, axis)
    ensures var s := DirectControls(h, current, limits).(layers := layers);
            var finished := Finished(s, Normalized(h, order).value, limits, seed);
            && (finished.Some? <==> Valid(DirectScore(h, current, limits, seed), limits))
            && (finished.Some? ==> SameScore(finished.value, DirectScore(h, current, limits, seed)))
  {
    var edit := Normalized(h, order).value;
    var s := DirectControls(h, current, limits);
    DirectLayersOn(h, current);
    var a, b := s.(layers := layers), s.(layers := DirectLayers(h, current));
    hide On, FinalOn, DirectLayers, DirectControls, EditsIn, RemovalsIn, DistinctAxes, Valid, LayersValid, Translatable,
         Absolute, Relative, Lists, IsAxis;
    assert SameLayers(a.layers, b.layers);
    FinishedAlike(a, b, edit, edit, limits, seed);
    DirectControlsPhrase(h, current, limits);
    assert Conforms(b, "");
  }

  /** Translating and applying, without the parser between them. */
  lemma AppliedMeansDirect(h: Hosted, order: seq<string>, current: Score, limits: Limits, seed: nat)
    requires Lists(order, h) && LayersValid(current.layers)
    ensures var edit := Normalized(h, order);
            && (edit.Some? && Edited(edit.value, current, limits, seed).Some? <==>
                  Asked(h, current) && Valid(DirectScore(h, current, limits, seed), limits))
            && (edit.Some? && Edited(edit.value, current, limits, seed).Some? ==>
                  SameScore(Edited(edit.value, current, limits, seed).value, DirectScore(h, current, limits, seed)))
  {
    AskedIsTranslatable(h, current);
    if Translatable(h) {
      ControlsTranslate(h);
      hide Reshaped, EditsIn, RemovalsIn, Absolute, Relative, ControlsOk, ApplyLayers, Finished, DirectScore,
           DirectControls, LayerAsked, ControlAsked, Valid, On, FinalOn, DirectPhrase, Translatable, Lists;
      var edit := Normalized(h, order).value;
      if ControlsOk(Absolute(h), Relative(h)) {
        TranslatedOutcome(h, order, current, limits, seed);
      } else {
        NoControlsNoEdit(edit, current, limits);
      }
    }
  }

  lemma AskedIsTranslatable(h: Hosted, current: Score)
    ensures Asked(h, current) ==> Translatable(h)
  {
    hide On, IsControl;
  }

  lemma NoControlsNoEdit(edit: Edit, current: Score, limits: Limits)
    requires !ControlsOk(edit.controls, edit.changes)
    ensures Reshaped(edit, current, limits).None?
  {
    hide ControlsOk;
  }

  lemma TranslatedOutcome(h: Hosted, order: seq<string>, current: Score, limits: Limits, seed: nat)
    requires Lists(order, h) && Translatable(h) && LayersValid(current.layers) && ControlsOk(Absolute(h), Relative(h))
    ensures var outcome := Edited(Normalized(h, order).value, current, limits, seed);
            && (outcome.Some? <==>
                  (forall axis | axis in h.layers :: LayerAsked(h, current, axis))
                      && Valid(DirectScore(h, current, limits, seed), limits))
            && (outcome.Some? ==> SameScore(outcome.value, DirectScore(h, current, limits, seed)))
  {
    assert forall a | a in order :: a in h.layers;
    hide Reshaped, EditsIn, RemovalsIn, Absolute, Relative, ControlsOk, ApplyLayers, Finished, DirectScore,
         DirectControls, Valid, On,
         FinalOn, DirectPhrase, Translatable, Lists, DistinctAxes, LayersValid, SameScore, LayerAsked;
    var edit := Normalized(h, order).value;
    ReshapedIsDirect(h, order, current, limits);
    DirectControlsPhrase(h, current, limits);
    var s := DirectControls(h, current, limits);
    DistinctWhenValid(current.layers);
    LayersAcceptedExactly(h, order, current, s.phrase.Some?);
    assert Edited(edit, current, limits, seed) ==
           if Layered(s, edit).None? then None else Finished(Layered(s, edit).value, edit, limits, seed);
    hide Edited;
    if Layered(s, edit).Some? {
      LayeredOutcome(h, order, current, limits, seed, s.phrase.Some?);
    }
  }

  lemma AskedAxes(h: Hosted, current: Score)
    requires forall axis | axis in h.layers :: LayerAsked(h, current, axis)
    ensures forall axis | axis in h.layers :: IsAxis(axis)
  {
    hide On, IsAxis;
  }

  lemma LayeredOutcome(h: Hosted, order: seq<string>, current: Score, limits: Limits, seed: nat, counted: bool)
    requires Lists(order, h) && Translatable(h) && LayersValid(current.layers)
    requires forall axis | axis in h.layers :: LayerAsked(h, current, axis)
    requires ApplyLayers(current.layers, EditsIn(h, order), RemovalsIn(h, order), counted).Some?
    ensures var layers := ApplyLayers(current.layers, EditsIn(h, order), RemovalsIn(h, order), counted).value;
            var finished :=
                Finished(DirectControls(h, current, limits).(layers := layers), Normalized(h, order).value, limits,
                         seed);
            && (finished.Some? <==> Valid(DirectScore(h, current, limits, seed), limits))
            && (finished.Some? ==> SameScore(finished.value, DirectScore(h, current, limits, seed)))
  {
    AskedAxes(h, current);
    DistinctWhenValid(current.layers);
    var edit := Normalized(h, order).value;
    hide EditsIn, RemovalsIn, Absolute, Relative, ApplyLayers, Finished, DirectScore, DirectControls, Valid, On,
         FinalOn, Translatable,
         Lists, DistinctAxes, LayersValid, SameScore, LayerAsked, LayersOk, FollowsOk, FollowedOn, ResultOn;
    ApplyLayersIs(current.layers, edit.layers, edit.remove, counted);
    ResultIsFinal(h, order, current, edit, counted);
    FinishedDirectly(h, order, current, limits, seed,
                     ApplyLayers(current.layers, edit.layers, edit.remove, counted).value);
  }

  // ----- Translating, parsing and applying -----

  function Empty(): Patch { Patch(None, None, None, None, None, None, None) }

  /** Every edited axis names something to change. */
  predicate Named(h: Hosted) {
    forall axis | axis in h.layers && h.layers[axis].EditLayer? :: h.layers[axis].patch != Empty()
  }

  /** What a hosted reply's edit does: translated, parsed and applied. */
  function HostedEdited(h: Hosted, order: seq<string>, current: Score, limits: Limits, seed: nat): Option<Score>
    requires forall a | a in order :: a in h.layers
  {
    var edit := Normalized(h, order);
    if edit.None? then None else Replied(edit.value, current, limits, seed)
  }

  /** Translate the reply's edit, then hand it to the shared parser. */
  method ParseHostedLayeredReply(h: Hosted, order: seq<string>, current: Score, limits: Limits, seed: nat)
    returns (r: Score, accepted: bool)
    requires Lists(order, h)
    ensures accepted <==> HostedEdited(h, order, current, limits, seed).Some?
    ensures accepted ==> r == HostedEdited(h, order, current, limits, seed).value
    ensures !accepted ==> r == current
  {
    hide Normalized, Replied;
    var edit := NormalizeOperations(h, order);
    if edit.None? {
      return current, false;
    }
    r, accepted := ParseLayeredReply(edit.value, current, limits, seed);
  }

  lemma TranslatedIsBare(axis: string, op: LayerOp)
    requires op.EditLayer? || op.FollowLayer?
    ensures Translated(axis, op) == BareEdit(Translated(axis, op).axis) <==> op == EditLayer(Empty())
  {}

  lemma ParsableWhenNamed(h: Hosted, order: seq<string>)
    requires Lists(order, h) && Translatable(h)
    ensures Parsable(Normalized(h, order).value) <==> Named(h)
  {
    var edits := EditsIn(h, order);
    forall axis | axis in h.layers && h.layers[axis].EditLayer?
      ensures Translated(axis, h.layers[axis]) in edits
      ensures Translated(axis, h.layers[axis]) == BareEdit(Translated(axis, h.layers[axis]).axis) <==>
                h.layers[axis].patch == Empty()
    {
      assert axis in order;
      TranslatedIsBare(axis, h.layers[axis]);
    }
    forall e | e in edits && e == BareEdit(e.axis) ensures h.layers[e.axis] == EditLayer(Empty()) {
      assert e.axis in order && LayerWellFormed(e.axis, h.layers[e.axis]);
      TranslatedIsBare(e.axis, h.layers[e.axis]);
    }
  }

  /**
    A hosted edit is editing directly: it is accepted if and only if every edited
    axis names something to change, each operation can be carried out and the
    directly edited score is valid, and then the result is that score, up to
    stored layer order.
   */
  lemma HostedMeansDirect(h: Hosted, order: seq<string>, current: Score, limits: Limits, seed: nat)
    requires Lists(order, h) && LayersValid(current.layers)
    ensures var next := HostedEdited(h, order, current, limits, seed);
            && (next.Some? <==> Named(h) && Asked(h, current) && Valid(DirectScore(h, current, limits, seed), limits))
            && (next.Some? ==> SameScore(next.value, DirectScore(h, current, limits, seed)))
  {
    AppliedMeansDirect(h, order, current, limits, seed);
    AskedIsTranslatable(h, current);
    if Translatable(h) {
      ParsableWhenNamed(h, order);
    }
    hide Named, Asked, Valid, DirectScore, Edited, Parsable, Translatable, EditsIn, RemovalsIn, Absolute, Relative;
  }

  /** An edit operation with an empty value could be carried out on any score, and is refused on every one. */
  lemma EmptyLayerEditIsRefused(current: Score, limits: Limits, seed: nat)
    ensures var h := Hosted(map[], map["pace" := EditLayer(Empty())], false);
            Lists(["pace"], h) && Asked(h, current) && !Named(h)
                && HostedEdited(h, ["pace"], current, limits, seed).None?
  {
    var h := Hosted(map[], map["pace" := EditLayer(Empty())], false);
    assert "pace" in h.layers && h.layers["pace"] == EditLayer(Empty());
    ParsableWhenNamed(h, ["pace"]);
  }
}

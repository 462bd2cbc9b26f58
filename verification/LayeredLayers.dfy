/**
  Layer edits of one transaction: removals, then edits in order, then timing
  links resolved against the layers that result.
 */
module LayeredLayers {
  import opened Options
  import opened SqlOrder
  import opened LayeredScore

  datatype Follow = Follow(axis: string, relation: string)

  datatype LayerEdit = LayerEdit(axis: string, amount: Option<int>, period: Option<int>, periodChange: Option<int>,
                                 phase: Option<int>, shape: Option<string>, lowRate: Option<int>,
                                 inverted: Option<bool>, follow: Option<Follow>)

  function Or<T>(o: Option<T>, otherwise: T): T { if o.Some? then o.value else otherwise }

  function Fresh(axis: string): Layer { Layer(axis, 30, 12, 0, "drift", 0, false) }

  /** Only what the edit names changes. */
  function Updated(l: Layer, e: LayerEdit): Layer {
    l.(amount := Or(e.amount, l.amount), period := Or(e.period, l.period) + Or(e.periodChange, 0),
       phase := Or(e.phase, l.phase),
       shape := Or(e.shape, l.shape), lowRate := Or(e.lowRate, l.lowRate), inverted := Or(e.inverted, l.inverted))
  }

  function EditOne(layers: seq<Layer>, e: LayerEdit): Option<seq<Layer>> {
    var i := IndexOf(layers, e.axis);
    if i < |layers| then Some(layers[i := Updated(layers[i], e)])
    else if e.periodChange.Some? then None
    else Some(layers + [Updated(Fresh(e.axis), e)])
  }

  predicate Admissible(e: LayerEdit, seen: set<string>) {
    !(e.period.Some? && e.periodChange.Some?) && IsAxis(e.axis) && e.axis !in seen
  }

  function EditAll(layers: seq<Layer>, edits: seq<LayerEdit>, seen: set<string>): Option<seq<Layer>>
    decreases |edits|
  {
    if edits == [] then Some(layers)
    else if !Admissible(edits[0], seen) then None
    else
      var next := EditOne(layers, edits[0]);
      if next.None? then None else EditAll(next.value, edits[1..], seen + {edits[0].axis})
  }

  /** A link can be resolved against these layers. */
  predicate CanFollow(layers: seq<Layer>, e: LayerEdit, counted: bool)
    requires e.follow.Some?
  {
    var link := e.follow.value;
    && !counted
    && e.axis == "pace" && (link.axis == "center" || link.axis == "range")
    && (link.relation == "same" || link.relation == "opposite")
    && e.period.None? && e.periodChange.None? && e.phase.None? && e.shape.None? && e.inverted.None?
    && On(layers, "pace").Some? && On(layers, link.axis).Some?
    && On(layers, link.axis).value.amount != 0 && On(layers, link.axis).value.shape != "drift"
  }

  /** The pace layer with the timing of its source. */
  function Linked(pace: Layer, source: Layer, relation: string): Layer {
    pace.(period := source.period, phase := source.phase, shape := source.shape,
          inverted := source.inverted != (relation == "opposite"))
  }

  function FollowAll(layers: seq<Layer>, edits: seq<LayerEdit>, counted: bool): Option<seq<Layer>>
    decreases |edits|
  {
    if edits == [] then Some(layers)
    else
      var e := edits[0];
      if e.follow.None? then FollowAll(layers, edits[1..], counted)
      else if !CanFollow(layers, e, counted) then None
      else
        var pace := Linked(On(layers, "pace").value, On(layers, e.follow.value.axis).value, e.follow.value.relation);
        FollowAll(layers[IndexOf(layers, "pace") := pace], edits[1..], counted)
  }

  predicate Distinct(axes: seq<string>) { forall i, j | 0 <= i < j < |axes| :: axes[i] != axes[j] }

  predicate RemovalsOk(remove: seq<string>) { Distinct(remove) && forall a | a in remove :: IsAxis(a) }

  function AsSet(axes: seq<string>): set<string> { set a | a in axes }

  function ApplyLayers(layers: seq<Layer>, edits: seq<LayerEdit>, remove: seq<string>,
                       counted: bool): Option<seq<Layer>> {
    if 3 < |edits| || 3 < |remove| || !RemovalsOk(remove) then None
    else
      var edited := EditAll(Without(layers, AsSet(remove)), edits, AsSet(remove));
      if edited.None? then None else FollowAll(edited.value, edits, counted)
  }

  /** The loops over removals, edits and links. */
  method ApplyLayeredLayers(layers: seq<Layer>, edits: seq<LayerEdit>, remove: seq<string>, counted: bool)
    returns (r: Option<seq<Layer>>)
    ensures r == ApplyLayers(layers, edits, remove, counted)
  {
    if |edits| > 3 || |remove| > 3 {
      return None;
    }
    var seen: set<string> := {};
    var i := 0;
    while i < |remove|
      invariant 0 <= i <= |remove|
      invariant seen == AsSet(remove[..i]) && RemovalsOk(remove[..i])
    {
      assert remove[..i + 1] == remove[..i] + [remove[i]];
      if !IsAxis(remove[i]) || remove[i] in seen {
        NotRemovable(remove, i);
        return None;
      }
      seen := seen + {remove[i]};
      i := i + 1;
    }
    assert remove[..i] == remove;
    var edited := EditLayers(Without(layers, seen), edits, seen);
    if edited.None? {
      return None;
    }
    r := FollowLayers(edited.value, edits, counted);
  }

  lemma NotRemovable(remove: seq<string>, i: nat)
    requires i < |remove| && (!IsAxis(remove[i]) || remove[i] in AsSet(remove[..i]))
    ensures !RemovalsOk(remove)
  {
    if IsAxis(remove[i]) {
      var j :| 0 <= j < i && remove[..i][j] == remove[i];
      assert remove[j] == remove[i];
    } else {
      assert remove[i] in remove;
    }
  }

  method EditLayers(start: seq<Layer>, edits: seq<LayerEdit>, gone: set<string>) returns (r: Option<seq<Layer>>)
    ensures r == EditAll(start, edits, gone)
  {
    var layers, seen := start, gone;
    var i := 0;
    while i < |edits|
      invariant 0 <= i <= |edits|
      invariant EditAll(layers, edits[i..], seen) == EditAll(start, edits, gone)
    {
      var e := edits[i];
      assert edits[i..][0] == e && edits[i..][1..] == edits[i + 1..];
      if e.period.Some? && e.periodChange.Some? {
        return None;
      }
      if !IsAxis(e.axis) || e.axis in seen {
        return None;
      }
      seen := seen + {e.axis};
      var index := IndexOf(layers, e.axis);
      if index == |layers| {
        if e.periodChange.Some? {
          return None;
        }
        layers := layers + [Fresh(e.axis)];
        layers := layers[index := Updated(layers[index], e)];
        assert layers == layers[..index] + [Updated(Fresh(e.axis), e)];
      } else {
        layers := layers[index := Updated(layers[index], e)];
      }
      i := i + 1;
    }
    r := Some(layers);
  }

  method FollowLayers(start: seq<Layer>, edits: seq<LayerEdit>, counted: bool) returns (r: Option<seq<Layer>>)
    ensures r == FollowAll(start, edits, counted)
  {
    var layers := start;
    var i := 0;
    while i < |edits|
      invariant 0 <= i <= |edits|
      invariant FollowAll(layers, edits[i..], counted) == FollowAll(start, edits, counted)
    {
      var e := edits[i];
      assert edits[i..][0] == e && edits[i..][1..] == edits[i + 1..];
      if e.follow.Some? {
        if !CanFollow(layers, e, counted) {
          return None;
        }
        var target := IndexOf(layers, "pace");
        var linked := Linked(layers[target], On(layers, e.follow.value.axis).value, e.follow.value.relation);
        layers := layers[target := linked];
      }
      i := i + 1;
    }
    r := Some(layers);
  }

  // ----- The edits, without an order -----

  predicate DistinctEdits(edits: seq<LayerEdit>) {
    forall i, j | 0 <= i < j < |edits| :: edits[i].axis != edits[j].axis
  }

  /** Each edit is admissible on its own, no axis is named twice, and a relative period has a layer to change. */
  predicate EditsOk(layers: seq<Layer>, edits: seq<LayerEdit>, gone: set<string>) {
    && DistinctEdits(edits)
    && forall e | e in edits :: Admissible(e, gone) && (e.periodChange.Some? ==> On(layers, e.axis).Some?)
  }

  /** The edit naming an axis. */
  function EditFor(edits: seq<LayerEdit>, axis: string): (r: Option<LayerEdit>)
    ensures r.Some? ==> r.value in edits && r.value.axis == axis
    ensures r.None? ==> forall e | e in edits :: e.axis != axis
  {
    if edits == [] then None else if edits[0].axis == axis then Some(edits[0]) else EditFor(edits[1..], axis)
  }

  /** What editing leaves on an axis: the edit of that axis, whichever came first. */
  function EditedOn(layers: seq<Layer>, edits: seq<LayerEdit>, axis: string): Option<Layer> {
    var e := EditFor(edits, axis);
    if e.None? then On(layers, axis) else Some(Updated(Or(On(layers, axis), Fresh(axis)), e.value))
  }

  lemma EditOneOn(layers: seq<Layer>, e: LayerEdit, axis: string)
    requires EditOne(layers, e).Some?
    ensures On(EditOne(layers, e).value, axis) ==
            if axis == e.axis then Some(Updated(Or(On(layers, axis), Fresh(axis)), e)) else On(layers, axis)
  {
    var i := IndexOf(layers, e.axis);
    if i < |layers| {
      OnUpdate(layers, i, Updated(layers[i], e), axis);
    } else {
      OnAppend(layers, Updated(Fresh(e.axis), e), axis);
    }
  }

  lemma EditOneStaysDistinct(layers: seq<Layer>, e: LayerEdit)
    requires EditOne(layers, e).Some? && DistinctAxes(layers)
    ensures DistinctAxes(EditOne(layers, e).value)
  {
    var i := IndexOf(layers, e.axis);
    var r := EditOne(layers, e).value;
    if i < |layers| {
      assert forall j | 0 <= j < |r| :: r[j].axis == layers[j].axis;
    }
  }

  lemma RestDistinct(edits: seq<LayerEdit>)
    requires edits != []
    ensures DistinctEdits(edits) <==> DistinctEdits(edits[1..]) && forall f | f in edits[1..] :: f.axis != edits[0].axis
  {
    var e, rest := edits[0], edits[1..];
    if DistinctEdits(edits) {
      forall i, j | 0 <= i < j < |rest| ensures rest[i].axis != rest[j].axis {
        assert edits[i + 1].axis != edits[j + 1].axis;
      }
      forall f | f in rest ensures f.axis != e.axis {
        var j :| 0 <= j < |rest| && rest[j] == f;
        assert edits[j + 1] == f;
      }
    }
    if DistinctEdits(rest) && forall f | f in rest :: f.axis != e.axis {
      forall i, j | 0 <= i < j < |edits| ensures edits[i].axis != edits[j].axis {
        assert edits[j] == rest[j - 1] && rest[j - 1] in rest;
        if i > 0 {
          assert edits[i] == rest[i - 1];
        }
      }
    }
  }

  lemma AdmissibleRest(layers: seq<Layer>, edits: seq<LayerEdit>, seen: set<string>)
    requires edits != [] && Admissible(edits[0], seen) && EditOne(layers, edits[0]).Some?
    ensures EditsOk(layers, edits, seen) <==>
              EditsOk(EditOne(layers, edits[0]).value, edits[1..], seen + {edits[0].axis})
  {
    var e, rest, next := edits[0], edits[1..], EditOne(layers, edits[0]).value;
    RestDistinct(edits);
    assert e.periodChange.Some? ==> On(layers, e.axis).Some?;
    hide Updated, IndexOf, On, DistinctEdits, EditOne;
    assert forall f | f in edits :: f == e || f in rest;
    assert forall f | f in rest :: f in edits;
    forall f | f in rest
      ensures f.axis != e.axis ==> On(next, f.axis) == On(layers, f.axis)
    {
      EditOneOn(layers, e, f.axis);
    }
  }

  /**
    Editing in sequence succeeds exactly when every edit is fine on its own, and
    leaves exactly what each axis was given.
   */
  lemma {:induction false} EditAllIs(layers: seq<Layer>, edits: seq<LayerEdit>, seen: set<string>)
    ensures EditAll(layers, edits, seen).Some? <==> EditsOk(layers, edits, seen)
    ensures EditAll(layers, edits, seen).Some? ==> forall a ::
              On(EditAll(layers, edits, seen).value, a) == EditedOn(layers, edits, a)
    ensures EditAll(layers, edits, seen).Some? && DistinctAxes(layers) ==>
              DistinctAxes(EditAll(layers, edits, seen).value)
    decreases |edits|
  {
    hide Updated, IndexOf, On;
    if edits != [] {
      var e := edits[0];
      assert e in edits;
      if Admissible(e, seen) {
        var next := EditOne(layers, e);
        if next.Some? {
          AdmissibleRest(layers, edits, seen);
          EditAllIs(next.value, edits[1..], seen + {e.axis});
          if EditsOk(layers, edits, seen) {
            EditedRest(layers, edits, seen);
            if DistinctAxes(layers) {
              EditOneStaysDistinct(layers, e);
            }
          }
        } else {
          NoLayerToChange(layers, e);
        }
      }
    }
  }

  lemma NoLayerToChange(layers: seq<Layer>, e: LayerEdit)
    requires EditOne(layers, e).None?
    ensures e.periodChange.Some? && On(layers, e.axis).None?
  {}

  lemma EditedRest(layers: seq<Layer>, edits: seq<LayerEdit>, seen: set<string>)
    requires edits != [] && EditsOk(layers, edits, seen) && EditOne(layers, edits[0]).Some?
    ensures forall a :: EditedOn(EditOne(layers, edits[0]).value, edits[1..], a) == EditedOn(layers, edits, a)
  {
    var e, rest := edits[0], edits[1..];
    hide Updated, IndexOf, EditOne;
    RestDistinct(edits);
    forall a ensures EditedOn(EditOne(layers, e).value, rest, a) == EditedOn(layers, edits, a) {
      EditOneOn(layers, e, a);
    }
  }

  // ----- Following, without an order -----

  /** Every link resolves against the edited layers. */
  predicate FollowsOk(layers: seq<Layer>, edits: seq<LayerEdit>, counted: bool) {
    forall e | e in edits && e.follow.Some? :: CanFollow(layers, e, counted)
  }

  /** What linking leaves on an axis: only pace changes, and it takes the final timing of its source. */
  function FollowedOn(layers: seq<Layer>, edits: seq<LayerEdit>, axis: string): Option<Layer> {
    var e := EditFor(edits, "pace");
    if axis == "pace" && e.Some? && e.value.follow.Some? && On(layers, "pace").Some?
        && On(layers, e.value.follow.value.axis).Some? then
      Some(Linked(On(layers, "pace").value, On(layers, e.value.follow.value.axis).value, e.value.follow.value.relation))
    else On(layers, axis)
  }

  lemma NoFurtherLinks(layers: seq<Layer>, edits: seq<LayerEdit>, counted: bool)
    requires forall e | e in edits :: e.axis != "pace"
    ensures FollowsOk(layers, edits, counted) <==> forall e | e in edits :: e.follow.None?
  {}

  lemma {:induction false} UnlinkedFollowAll(layers: seq<Layer>, edits: seq<LayerEdit>, counted: bool)
    requires forall e | e in edits :: e.axis != "pace"
    ensures FollowAll(layers, edits, counted).Some? <==> forall e | e in edits :: e.follow.None?
    ensures FollowAll(layers, edits, counted).Some? ==> FollowAll(layers, edits, counted).value == layers
    decreases |edits|
  {
    if edits != [] {
      assert edits[0] in edits;
      assert forall e | e in edits :: e == edits[0] || e in edits[1..];
      UnlinkedFollowAll(layers, edits[1..], counted);
    }
  }

  /** Linking in sequence succeeds exactly when every link resolves, whatever the order of the edits. */
  lemma {:induction false} FollowAllIs(layers: seq<Layer>, edits: seq<LayerEdit>, counted: bool)
    requires DistinctEdits(edits)
    ensures FollowAll(layers, edits, counted).Some? <==> FollowsOk(layers, edits, counted)
    ensures FollowAll(layers, edits, counted).Some? ==> forall a ::
              On(FollowAll(layers, edits, counted).value, a) == FollowedOn(layers, edits, a)
    ensures FollowAll(layers, edits, counted).Some? && DistinctAxes(layers) ==>
              DistinctAxes(FollowAll(layers, edits, counted).value)
    decreases |edits|
  {
    if edits != [] {
      var e := edits[0];
      RestDistinct(edits);
      assert e in edits;
      assert forall f | f in edits :: f == e || f in edits[1..];
      assert forall f | f in edits[1..] :: f in edits;
      hide On, IndexOf, Linked, DistinctEdits;
      if e.follow.None? {
        FollowAllIs(layers, edits[1..], counted);
        NotFollowing(layers, edits);
      } else if CanFollow(layers, e, counted) {
        FollowingFirst(layers, edits, counted);
      }
    }
  }

  lemma NotFollowing(layers: seq<Layer>, edits: seq<LayerEdit>)
    requires edits != [] && edits[0].follow.None? && DistinctEdits(edits)
    ensures forall a :: FollowedOn(layers, edits[1..], a) == FollowedOn(layers, edits, a)
  {
    RestDistinct(edits);
    var rest := EditFor(edits[1..], "pace");
    assert edits[0].axis == "pace" ==> rest.None?;
  }

  lemma FollowingFirst(layers: seq<Layer>, edits: seq<LayerEdit>, counted: bool)
    requires edits != [] && DistinctEdits(edits) && edits[0].follow.Some? && CanFollow(layers, edits[0], counted)
    ensures FollowAll(layers, edits, counted).Some? <==> FollowsOk(layers, edits, counted)
    ensures FollowAll(layers, edits, counted).Some? ==> forall a ::
              On(FollowAll(layers, edits, counted).value, a) == FollowedOn(layers, edits, a)
    ensures FollowAll(layers, edits, counted).Some? && DistinctAxes(layers) ==>
              DistinctAxes(FollowAll(layers, edits, counted).value)
  {
    var e, rest := edits[0], edits[1..];
    RestDistinct(edits);
    hide Linked, DistinctEdits;
    var i := IndexOf(layers, "pace");
    var pace := Linked(On(layers, "pace").value, On(layers, e.follow.value.axis).value, e.follow.value.relation);
    var linked := layers[i := pace];
    LinkedAxis(On(layers, "pace").value, On(layers, e.follow.value.axis).value, e.follow.value.relation);
    UnlinkedFollowAll(linked, rest, counted);
    NoFurtherLinks(layers, rest, counted);
    assert e in edits;
    assert forall f | f in edits :: f == e || f in rest;
    assert forall f | f in rest :: f in edits;
    forall a ensures On(linked, a) == FollowedOn(layers, edits, a) {
      OnUpdate(layers, i, pace, a);
    }
    assert DistinctAxes(layers) ==> DistinctAxes(linked) by {
      assert forall j | 0 <= j < |layers| :: linked[j].axis == layers[j].axis;
    }
  }

  lemma LinkedAxis(pace: Layer, source: Layer, relation: string)
    ensures Linked(pace, source, relation).axis == pace.axis
  {}

  // ----- The whole layer edit, without an order -----

  /** The layers left on each axis by removal, then editing, then linking. */
  function ResultOn(layers: seq<Layer>, edits: seq<LayerEdit>, gone: set<string>, axis: string): Option<Layer> {
    var base := if axis in gone then None else On(layers, axis);
    var e := EditFor(edits, axis);
    if e.None? then base else Some(Updated(Or(base, Fresh(axis)), e.value))
  }

  predicate LayersOk(layers: seq<Layer>, edits: seq<LayerEdit>, remove: seq<string>) {
    && |edits| <= 3 && |remove| <= 3 && RemovalsOk(remove)
    && EditsOk(Without(layers, AsSet(remove)), edits, AsSet(remove))
  }

  /** A follow link reads its source after every edit of the transaction. */
  lemma ApplyLayersIs(layers: seq<Layer>, edits: seq<LayerEdit>, remove: seq<string>, counted: bool)
    requires DistinctAxes(layers)
    ensures var r := ApplyLayers(layers, edits, remove, counted);
            && (r.Some? ==> LayersOk(layers, edits, remove) && DistinctAxes(r.value))
            && (LayersOk(layers, edits, remove) ==>
                  var edited := EditAll(Without(layers, AsSet(remove)), edits, AsSet(remove));
                  && edited.Some? && DistinctAxes(edited.value)
                  && (forall a :: On(edited.value, a) == ResultOn(layers, edits, AsSet(remove), a))
                  && (r.Some? <==> FollowsOk(edited.value, edits, counted))
                  && (r.Some? ==> forall a :: On(r.value, a) == FollowedOn(edited.value, edits, a)))
  {
    var gone := AsSet(remove);
    var base := Without(layers, gone);
    WithoutStaysDistinct(layers, gone);
    EditAllIs(base, edits, gone);
    hide On, Without, IndexOf, Updated, Linked;
    var edited := EditAll(base, edits, gone);
    if LayersOk(layers, edits, remove) {
      FollowAllIs(edited.value, edits, counted);
      forall a ensures On(edited.value, a) == ResultOn(layers, edits, gone, a) {
        WithoutOn(layers, gone, a);
      }
    }
  }

  // ----- Confluence -----

  /** The same elements, each as often, in any order. */
  ghost predicate Rearranged<T>(a: seq<T>, b: seq<T>) { multiset(a) == multiset(b) }

  lemma RearrangedMembers<T>(a: seq<T>, b: seq<T>)
    requires Rearranged(a, b)
    ensures |a| == |b|
    ensures forall x :: x in a <==> x in b
  {
    assert |multiset(a)| == |a| && |multiset(b)| == |b|;
    forall x ensures x in a <==> x in b {
      assert x in a <==> x in multiset(a);
      assert x in b <==> x in multiset(b);
    }
  }

  lemma {:induction false} DistinctBySize(s: seq<string>)
    ensures |AsSet(s)| <= |s|
    ensures Distinct(s) <==> |AsSet(s)| == |s|
  {
    if s != [] {
      var rest := s[1..];
      DistinctBySize(rest);
      assert AsSet(s) == AsSet(rest) + {s[0]};
      if s[0] in rest {
        var j :| 0 <= j < |rest| && rest[j] == s[0];
        assert s[0] == s[j + 1];
        assert AsSet(s) == AsSet(rest);
      } else {
        assert s[0] !in AsSet(rest);
        assert Distinct(s) <==> Distinct(rest) by {
          DistinctCons(s[0], rest);
          assert s == [s[0]] + rest;
        }
      }
    }
  }

  lemma DistinctCons(x: string, rest: seq<string>)
    requires x !in rest
    ensures Distinct([x] + rest) <==> Distinct(rest)
  {
    var s := [x] + rest;
    if Distinct(s) {
      forall i, j | 0 <= i < j < |rest| ensures rest[i] != rest[j] {
        assert s[i + 1] != s[j + 1];
      }
    }
    if Distinct(rest) {
      forall i, j | 0 <= i < j < |s| ensures s[i] != s[j] {
        assert s[j] == rest[j - 1];
      }
    }
  }

  lemma RemovalsRearranged(a: seq<string>, b: seq<string>)
    requires Rearranged(a, b)
    ensures RemovalsOk(a) <==> RemovalsOk(b)
    ensures AsSet(a) == AsSet(b)
  {
    RearrangedMembers(a, b);
    DistinctBySize(a);
    DistinctBySize(b);
    assert AsSet(a) == AsSet(b);
  }

  function AxesOf(edits: seq<LayerEdit>): (r: seq<string>)
    ensures |r| == |edits| && forall i | 0 <= i < |r| :: r[i] == edits[i].axis
  {
    seq(|edits|, i requires 0 <= i < |edits| => edits[i].axis)
  }

  lemma DistinctEditsRearranged(a: seq<LayerEdit>, b: seq<LayerEdit>)
    requires Rearranged(a, b)
    ensures DistinctEdits(a) <==> DistinctEdits(b)
  {
    RearrangedMembers(a, b);
    DistinctBySize(AxesOf(a));
    DistinctBySize(AxesOf(b));
    forall x ensures x in AsSet(AxesOf(a)) <==> x in AsSet(AxesOf(b)) {
      NamedIn(a, x);
      NamedIn(b, x);
    }
    assert AsSet(AxesOf(a)) == AsSet(AxesOf(b));
    assert DistinctEdits(a) <==> Distinct(AxesOf(a));
    assert DistinctEdits(b) <==> Distinct(AxesOf(b));
  }

  lemma NamedIn(edits: seq<LayerEdit>, axis: string)
    ensures axis in AxesOf(edits) <==> exists e :: e in edits && e.axis == axis
  {
    if exists e :: e in edits && e.axis == axis {
      var e :| e in edits && e.axis == axis;
      var i :| 0 <= i < |edits| && edits[i] == e;
      assert AxesOf(edits)[i] == axis;
    }
    if axis in AxesOf(edits) {
      var i :| 0 <= i < |edits| && AxesOf(edits)[i] == axis;
      assert edits[i] in edits;
    }
  }

  lemma EditForRearranged(a: seq<LayerEdit>, b: seq<LayerEdit>, axis: string)
    requires Rearranged(a, b) && DistinctEdits(a)
    ensures EditFor(a, axis) == EditFor(b, axis)
  {
    RearrangedMembers(a, b);
    DistinctEditsRearranged(a, b);
    var one, two := EditFor(a, axis), EditFor(b, axis);
    if one.Some? && two.Some? {
      var i :| 0 <= i < |a| && a[i] == one.value;
      var j :| 0 <= j < |a| && a[j] == two.value;
      assert i == j;
    }
  }

  /** The same layer on every axis. */
  ghost predicate SameLayers(a: seq<Layer>, b: seq<Layer>) { forall axis: string :: On(a, axis) == On(b, axis) }

  lemma FollowRearranged(one: seq<Layer>, two: seq<Layer>, a: seq<LayerEdit>, b: seq<LayerEdit>, counted: bool)
    requires Rearranged(a, b) && DistinctEdits(a) && SameLayers(one, two)
    ensures FollowsOk(one, a, counted) <==> FollowsOk(two, b, counted)
    ensures forall x :: FollowedOn(one, a, x) == FollowedOn(two, b, x)
  {
    RearrangedMembers(a, b);
    EditForRearranged(a, b, "pace");
    hide On, Linked;
    assert On(one, "pace") == On(two, "pace");
    forall e | e in a && e.follow.Some? ensures CanFollow(one, e, counted) <==> CanFollow(two, e, counted) {
      assert On(one, e.follow.value.axis) == On(two, e.follow.value.axis);
    }
    forall x ensures FollowedOn(one, a, x) == FollowedOn(two, b, x) {
      assert On(one, x) == On(two, x);
      var e := EditFor(a, "pace");
      if e.Some? && e.value.follow.Some? {
        assert On(one, e.value.follow.value.axis) == On(two, e.value.follow.value.axis);
      }
    }
  }

  /** Layer edits and removals in any order succeed alike and leave every axis the same. */
  lemma LayerEditsAreConfluent(layers: seq<Layer>, edits: seq<LayerEdit>, shuffled: seq<LayerEdit>, remove: seq<string>,
                               shuffledOut: seq<string>, counted: bool)
    requires DistinctAxes(layers) && Rearranged(edits, shuffled) && Rearranged(remove, shuffledOut)
    ensures var one, two := ApplyLayers(layers, edits, remove, counted),
        ApplyLayers(layers, shuffled, shuffledOut, counted);
            && (one.Some? <==> two.Some?)
            && (one.Some? ==> SameLayers(one.value, two.value))
  {
    RearrangedMembers(edits, shuffled);
    RearrangedMembers(remove, shuffledOut);
    RemovalsRearranged(remove, shuffledOut);
    DistinctEditsRearranged(edits, shuffled);
    ApplyLayersIs(layers, edits, remove, counted);
    ApplyLayersIs(layers, shuffled, shuffledOut, counted);
    hide On, Without, IndexOf, Updated, Linked, EditAll, FollowAll, ApplyLayers, RemovalsOk, DistinctEdits, Admissible;
    assert LayersOk(layers, edits, remove) <==> LayersOk(layers, shuffled, shuffledOut);
    if LayersOk(layers, edits, remove) {
      var gone := AsSet(remove);
      var one, two := EditAll(Without(layers, gone), edits, gone).value,
      EditAll(Without(layers, gone), shuffled, gone).value;
      forall a ensures On(one, a) == On(two, a) {
        EditForRearranged(edits, shuffled, a);
      }
      FollowRearranged(one, two, edits, shuffled, counted);
    }
  }

  // ----- Order does not decide validity either -----

  lemma MemberByAxis(a: seq<Layer>, b: seq<Layer>)
    requires DistinctAxes(a) && DistinctAxes(b) && SameLayers(a, b)
    ensures forall l :: l in a ==> l in b
  {
    forall l | l in a ensures l in b {
      var i :| 0 <= i < |a| && a[i] == l;
      OnItself(a, i);
      assert On(b, l.axis) == Some(l);
    }
  }

  lemma SameLayersSym(a: seq<Layer>, b: seq<Layer>)
    requires SameLayers(a, b)
    ensures SameLayers(b, a)
  {
    forall axis: string ensures On(b, axis) == On(a, axis) {}
  }

  function LayerAxes(layers: seq<Layer>): (r: seq<string>)
    ensures |r| == |layers| && forall i | 0 <= i < |r| :: r[i] == layers[i].axis
  {
    seq(|layers|, i requires 0 <= i < |layers| => layers[i].axis)
  }

  lemma ThreeAxesAtMost(layers: seq<Layer>)
    requires DistinctAxes(layers) && forall l | l in layers :: IsAxis(l.axis)
    ensures |layers| <= 3
  {
    var axes := LayerAxes(layers);
    DistinctBySize(axes);
    assert Distinct(axes);
    forall a | a in AsSet(axes) ensures a in {"range", "center", "pace"} {
      var i :| 0 <= i < |axes| && axes[i] == a;
      assert layers[i] in layers;
    }
    SubsetSize(AsSet(axes), {"range", "center", "pace"});
  }

  lemma SameLayersSameValidity(a: seq<Layer>, b: seq<Layer>)
    requires DistinctAxes(a) && DistinctAxes(b) && SameLayers(a, b)
    ensures LayersValid(a) <==> LayersValid(b)
    ensures forall l :: l in a <==> l in b
  {
    MemberByAxis(a, b);
    SameLayersSym(a, b);
    MemberByAxis(b, a);
    if forall l | l in a :: LayerBounded(l) {
      ThreeAxesAtMost(a);
      ThreeAxesAtMost(b);
    }
  }
}

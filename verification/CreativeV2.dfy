/**
  A partial edit of a generated-stroke score: named controls, written one or
  several to an item, applied together rather than in sequence.
 */
module CreativeV2 {
  import opened Options

  /** The controls a model may name, and any other name. */
  datatype Control =
    | Range | Focus | Sweep | Rebounds | Evolve | SpeedPercent | InertiaPercent | VariationPercent
    | Unknown(name: string)

  /** The score's own fields; a group's fields are named after the ones they become. */
  datatype Field =
    | MinPercent | MaxPercent | TravelSpeed | FocusPercent | FocusWidth | FocusMix | FocusRoam | FasterDirection
    | Contrast | ReboundCount | ReboundDecay | Inertia | Variation | Stray(name: string)

  /** A decoded value; a group is an object of fields. */
  datatype Value = Null | Int(n: int) | Text(s: string) | Flag(b: bool) | Group(fields: map<Field, Value>) | Other

  type Item = map<Control, Value>
  type Fields = map<Field, Value>

  const MAX_ITEMS: nat := 8

  datatype Gesture = Gesture(focus: int, focusWidth: int, focusMix: int, focusRoam: int, direction: string,
                             contrast: int, rebounds: int, decay: int, inertia: int, variation: int)

  datatype Score = Score(min: int, max: int, speed: int, floor: int, seed: nat, gesture: Gesture)

  datatype Limits = Limits(speedMin: int, speedMax: int)

  // ----- Items -----

  /** The values written to a control, whichever items carry them. */
  function ValuesOf(items: seq<Item>, name: Control): multiset<Value> {
    if items == [] then multiset{}
    else
      var earlier := ValuesOf(items[..|items| - 1], name);
      if name in items[|items| - 1] then earlier + multiset{items[|items| - 1][name]} else earlier
  }

  /** The edits of a list of items: absent when a control is written twice. */
  ghost predicate Collects(items: seq<Item>, edits: Option<Item>) {
    && (edits.None? <==> exists name: Control :: 2 <= |ValuesOf(items, name)|)
    && (edits.Some? ==> forall name: Control ::
          ValuesOf(items, name) == if name in edits.value then multiset{edits.value[name]} else multiset{})
  }

  /** One item's controls, visited in any order; a control already gathered refuses the list. */
  method GatherControls(start: Item, item: Item) returns (gathered: Option<Item>)
    ensures gathered.Some? <==> forall name | name in item :: name !in start
    ensures gathered.Some? ==> gathered.value == start + item
  {
    var result := start;
    var unread := item.Keys;
    while unread != {}
      invariant unread <= item.Keys
      invariant forall name | name in item && name !in unread :: name !in start
      invariant result == start + (item - unread)
      decreases unread
    {
      var name :| name in unread;
      if name in result {
        return None;
      }
      result := result[name := item[name]];
      unread := unread - {name};
    }
    assert item - unread == item;
    gathered := Some(result);
  }

  /** Gather the items; they are applied together, so only a repeated control refuses them. */
  method CollectEdits(items: seq<Item>) returns (edits: Option<Item>)
    ensures Collects(items, edits)
  {
    var gathered: Item := map[];
    NothingCollected();
    var i := 0;
    hide Collects, ValuesOf;
    while i < |items|
      invariant 0 <= i <= |items|
      invariant Collects(items[..i], Some(gathered))
    {
      var next := GatherControls(gathered, items[i]);
      if next.None? {
        var name :| name in items[i] && name in gathered;
        WrittenTwice(items, i, gathered, name);
        RepeatRefuses(items, name);
        return None;
      }
      GatherItem(items[..i], items[i], gathered);
      assert items[..i] + [items[i]] == items[..i + 1];
      gathered := next.value;
      i := i + 1;
    }
    assert items[..i] == items;
    edits := Some(gathered);
  }

  lemma NothingCollected()
    ensures Collects([], Some(map[]))
  {}

  lemma RepeatRefuses(items: seq<Item>, name: Control)
    requires 2 <= |ValuesOf(items, name)|
    ensures Collects(items, None)
  {}

  lemma GatherItem(items: seq<Item>, item: Item, start: Item)
    requires Collects(items, Some(start)) && forall name | name in item :: name !in start
    ensures Collects(items + [item], Some(start + item))
  {
    forall name: Control
      ensures ValuesOf(items + [item], name) ==
                if name in start + item then multiset{(start + item)[name]} else multiset{}
    {
      assert (items + [item])[..|items|] == items;
    }
  }

  lemma {:induction false} LaterItemsOnlyAdd(items: seq<Item>, i: nat, name: Control)
    requires i <= |items|
    ensures |ValuesOf(items[..i], name)| <= |ValuesOf(items, name)|
    decreases |items|
  {
    if i == |items| {
      assert items[..i] == items;
    } else {
      LaterItemsOnlyAdd(items[..|items| - 1], i, name);
      assert items[..|items| - 1][..i] == items[..i];
    }
  }

  lemma WrittenTwice(items: seq<Item>, i: nat, start: Item, name: Control)
    requires i < |items| && Collects(items[..i], Some(start)) && name in items[i] && name in start
    ensures 2 <= |ValuesOf(items, name)|
  {
    assert items[..i + 1][..i] == items[..i];
    assert |ValuesOf(items[..i + 1], name)| == 2;
    LaterItemsOnlyAdd(items, i + 1, name);
  }

  /** The same values for every control, however they are grouped into items and ordered. */
  ghost predicate SameWriting(one: seq<Item>, two: seq<Item>) {
    forall name: Control :: ValuesOf(one, name) == ValuesOf(two, name)
  }

  /** Grouping and order of items cannot be seen in what is collected. */
  lemma GroupingDoesNotMatter(one: seq<Item>, two: seq<Item>, a: Option<Item>, b: Option<Item>)
    requires SameWriting(one, two) && Collects(one, a) && Collects(two, b)
    ensures a == b
  {
    if a.Some? {
      forall name: Control ensures |ValuesOf(two, name)| < 2 {
        assert ValuesOf(one, name) == ValuesOf(two, name);
      }
      assert b.Some?;
      forall name: Control
        ensures name in a.value <==> name in b.value
        ensures name in a.value ==> a.value[name] == b.value[name]
      {
        assert ValuesOf(one, name) == ValuesOf(two, name);
        if name in a.value {
          assert a.value[name] in ValuesOf(two, name);
        }
        if name in b.value {
          assert b.value[name] in ValuesOf(one, name);
        }
      }
      assert a.value == b.value;
    } else {
      var name: Control :| 2 <= |ValuesOf(one, name)|;
      assert 2 <= |ValuesOf(two, name)|;
    }
  }

  // ----- Entries -----

  /** The fields a group writes, all of them required. */
  function FieldsIn(control: Control): set<Field> {
    match control
    case Range => {MinPercent, MaxPercent}
    case Focus => {FocusPercent, FocusWidth, FocusMix, FocusRoam}
    case Sweep => {FasterDirection, Contrast}
    case Rebounds => {ReboundCount, ReboundDecay}
    case _ => {}
  }

  predicate IsGroup(control: Control) { control.Range? || control.Focus? || control.Sweep? || control.Rebounds? }

  /** The control that alone writes a field. */
  function OwnerOf(field: Field): Control {
    match field
    case MinPercent => Range
    case MaxPercent => Range
    case FocusPercent => Focus
    case FocusWidth => Focus
    case FocusMix => Focus
    case FocusRoam => Focus
    case FasterDirection => Sweep
    case Contrast => Sweep
    case ReboundCount => Rebounds
    case ReboundDecay => Rebounds
    case TravelSpeed => SpeedPercent
    case Inertia => InertiaPercent
    case Variation => VariationPercent
    case Stray(name) => Unknown(name)
  }

  /** An older focus edit without roaming meant a fixed anchor. */
  function Filled(control: Control, group: Fields): Fields {
    if control.Focus? && |group| == 3 && FocusRoam !in group then group[FocusRoam := Int(0)] else group
  }

  predicate GroupOk(control: Control, group: Fields) {
    && |group| == |FieldsIn(control)|
    && (forall field | field in FieldsIn(control) :: field in group && group[field] != Null)
    && (control.Range? ==> forall field | field in FieldsIn(control) :: group[field].Int?)
  }

  function Picked(control: Control, group: Fields): Fields
    requires GroupOk(control, group)
  {
    map field | field in FieldsIn(control) :: group[field]
  }

  /** The fields one edit writes; absent when it is malformed. */
  function Writes(control: Control, value: Value): Option<Fields> {
    if value == Null then None
    else if IsGroup(control) then
      if value.Group? && GroupOk(control, Filled(control, value.fields))
          then Some(Picked(control, Filled(control, value.fields))) else None
    else
      match control
      case Evolve => if value.Flag? then Some(map[]) else None
      case SpeedPercent => if value.Int? then Some(map[TravelSpeed := value]) else None
      case InertiaPercent => Some(map[Inertia := value])
      case VariationPercent => Some(map[Variation := value])
      case _ => None
  }

  lemma WritesOwnFields(control: Control, value: Value)
    requires Writes(control, value).Some?
    ensures forall field | field in Writes(control, value).value :: OwnerOf(field) == control && field in FieldNames()
  {}

  function FieldNames(): set<Field> {
    {MinPercent, MaxPercent, TravelSpeed, FocusPercent, FocusWidth, FocusMix, FocusRoam, FasterDirection, Contrast,
     ReboundCount, ReboundDecay, Inertia, Variation}
  }

  function FieldsOf(s: Score): Fields {
    var g := s.gesture;
    map[MinPercent := Int(s.min), MaxPercent := Int(s.max), TravelSpeed := Int(s.speed), FocusPercent := Int(g.focus),
        FocusWidth := Int(g.focusWidth), FocusMix := Int(g.focusMix), FocusRoam := Int(g.focusRoam),
        FasterDirection := Text(g.direction), Contrast := Int(g.contrast), ReboundCount := Int(g.rebounds),
        ReboundDecay := Int(g.decay), Inertia := Int(g.inertia), Variation := Int(g.variation)]
  }

  /** A field after a set of edits: what its owner writes, or as it was. */
  function FieldAfter(edits: Item, field: Field, prior: Value): Value {
    var owner := OwnerOf(field);
    if owner in edits && Writes(owner, edits[owner]).Some? && field in Writes(owner, edits[owner]).value
    then Writes(owner, edits[owner]).value[field] else prior
  }

  ghost predicate Applied(fields: Fields, start: Fields, edits: Item) {
    && fields.Keys == start.Keys
    && forall field | field in start :: fields[field] == FieldAfter(edits, field, start[field])
  }

  predicate EditsOk(edits: Item) { forall name | name in edits :: Writes(name, edits[name]).Some? }

  /** Write some of a group's fields, visited in any order. */
  method CopyFields(keys: set<Field>, group: Fields, start: Fields) returns (fields: Fields)
    requires forall field | field in keys :: field in group
    ensures fields.Keys == start.Keys + keys
    ensures forall field | field in fields :: fields[field] == if field in keys then group[field] else start[field]
  {
    fields := start;
    var unread := keys;
    while unread != {}
      invariant unread <= keys
      invariant fields.Keys == start.Keys + (keys - unread)
      invariant forall field | field in fields ::
                  fields[field] == if field in keys && field !in unread then group[field] else start[field]
      decreases unread
    {
      var field :| field in unread;
      fields := fields[field := group[field]];
      unread := unread - {field};
    }
  }

  method ApplyGroup(control: Control, group: Fields, start: Fields) returns (fields: Fields)
    requires GroupOk(control, group)
    ensures fields == start + Picked(control, group)
  {
    hide FieldsIn;
    fields := CopyFields(FieldsIn(control), group, start);
  }

  lemma FieldNext(edits: Item, name: Control, value: Value, field: Field, prior: Value)
    requires name !in edits && Writes(name, value).Some?
    ensures FieldAfter(edits[name := value], field, prior) ==
            if field in Writes(name, value).value then Writes(name, value).value[field]
            else FieldAfter(edits, field, prior)
  {
    WritesOwnFields(name, value);
    hide Writes, OwnerOf, FieldNames;
  }

  lemma ApplyNext(fields: Fields, start: Fields, edits: Item, name: Control, value: Value)
    requires Applied(fields, start, edits) && name !in edits && Writes(name, value).Some?
    requires forall field | field in FieldNames() :: field in start
    ensures Applied(fields + Writes(name, value).value, start, edits[name := value])
  {
    WritesOwnFields(name, value);
    hide Writes, OwnerOf, FieldNames, FieldAfter;
    var after := fields + Writes(name, value).value;
    forall field | field in start ensures after[field] == FieldAfter(edits[name := value], field, start[field]) {
      FieldNext(edits, name, value, field, start[field]);
    }
    forall field ensures field in after <==> field in start {}
  }

  /** Apply the edits one by one, in whatever order the runtime visits them. */
  method ApplyEntries(edits: Item, start: Fields) returns (fields: Option<Fields>)
    requires forall field | field in FieldNames() :: field in start
    ensures fields.Some? <==> EditsOk(edits)
    ensures fields.Some? ==> Applied(fields.value, start, edits)
  {
    var result := start;
    var done: Item := map[];
    var unread := edits.Keys;
    while unread != {}
      invariant unread <= edits.Keys && done.Keys == edits.Keys - unread
      invariant forall name | name in done :: done[name] == edits[name] && Writes(name, edits[name]).Some?
      invariant Applied(result, start, done)
      decreases unread
    {
      var name :| name in unread;
      var value := edits[name];
      if Writes(name, value).None? {
        return None;
      }
      ApplyNext(result, start, done, name, value);
      if IsGroup(name) {
        result := ApplyGroup(name, Filled(name, value.fields), result);
      } else {
        result := result + Writes(name, value).value;
      }
      done := done[name := value];
      unread := unread - {name};
    }
    assert done == edits;
    fields := Some(result);
  }

  // ----- The whole edit -----

  /** Every field reads back with its own type. */
  predicate WellTyped(fields: Fields) {
    forall field | field in FieldNames() ::
        field in fields && if field.FasterDirection? then fields[field].Text? else fields[field].Int?
  }

  function Decoded(fields: Fields, s: Score): Score
    requires WellTyped(fields)
  {
    Score(fields[MinPercent].n, fields[MaxPercent].n, fields[TravelSpeed].n, s.floor, s.seed,
          Gesture(fields[FocusPercent].n, fields[FocusWidth].n, fields[FocusMix].n, fields[FocusRoam].n,
                  fields[FasterDirection].s, fields[Contrast].n, fields[ReboundCount].n, fields[ReboundDecay].n,
                  fields[Inertia].n, fields[Variation].n))
  }

  /** A local width wider than the band becomes as wide as the band allows. */
  function Fitted(s: Score): Score {
    var band := s.max - s.min;
    if band < s.gesture.focusWidth then s.(gesture := s.gesture.(focusWidth := if band < 10 then 10 else band)) else s
  }

  predicate Valid(s: Score, limits: Limits) {
    var g := s.gesture;
    && 0 <= s.min <= 90 && s.min + 10 <= s.max <= 100 && 10 <= s.floor <= s.max - s.min
    && limits.speedMin <= s.speed <= limits.speedMax && s.seed != 0
    && 0 <= g.focus <= 100 && 10 <= g.focusWidth <= s.max - s.min && 0 <= g.focusMix <= 100 && 0 <= g.focusRoam <= 100
    && g.direction in {"even", "tip", "base"} && 0 <= g.contrast <= 80 && 0 <= g.inertia <= 100
    && 0 <= g.rebounds <= 4 && 25 <= g.decay <= 85 && 0 <= g.variation <= 100
  }

  function Evolves(edits: Item): bool { Evolve in edits && edits[Evolve] == Flag(true) }

  /** What a well-formed set of edits makes of the fields. */
  function FieldsAfter(edits: Item, s: Score): Fields {
    var start := FieldsOf(s);
    map field | field in start :: FieldAfter(edits, field, start[field])
  }

  function Edited(edits: Item, s: Score, limits: Limits, seed: nat): Option<Score> {
    var fields := FieldsAfter(edits, s);
    if !EditsOk(edits) || !WellTyped(fields) then None
    else
      var next := Fitted(Decoded(fields, s).(seed := if Evolves(edits) then seed else s.seed));
      if Valid(next, limits) then Some(next) else None
  }

  /** Merge a partial edit; a refused one leaves the score as it was. `seed` is the fresh one. */
  method ApplyCreativeV2(items: seq<Item>, current: Score, limits: Limits, seed: nat) returns (r: Score, accepted: bool)
    ensures forall edits | Collects(items, edits) ::
              && (accepted <==> |items| <= MAX_ITEMS && edits.Some? && Edited(edits.value, current, limits, seed).Some?)
              && (accepted ==> r == Edited(edits.value, current, limits, seed).value)
    ensures !accepted ==> r == current
  {
    hide Collects, Applied, EditsOk, WellTyped, Valid, Decoded, Fitted, FieldAfter, FieldsOf;
    r, accepted := current, false;
    var edits := CollectEdits(items);
    forall other | Collects(items, other) ensures other == edits {
      SameWritingSelf(items);
      GroupingDoesNotMatter(items, items, other, edits);
    }
    if |items| > MAX_ITEMS || edits.None? {
      return;
    }
    AllFieldsThere(current);
    var fields := ApplyEntries(edits.value, FieldsOf(current));
    if fields.None? {
      return;
    }
    AppliedIsAfter(fields.value, edits.value, current);
    if !WellTyped(fields.value) {
      return;
    }
    var next := Fitted(Decoded(fields.value, current).(seed := if Evolves(edits.value) then seed else current.seed));
    if Valid(next, limits) {
      r, accepted := next, true;
    }
  }

  lemma SameWritingSelf(items: seq<Item>)
    ensures SameWriting(items, items)
  {}

  lemma AllFieldsThere(s: Score)
    ensures forall field | field in FieldNames() :: field in FieldsOf(s)
  {}

  lemma AppliedIsAfter(fields: Fields, edits: Item, s: Score)
    requires Applied(fields, FieldsOf(s), edits)
    ensures fields == FieldsAfter(edits, s)
  {
    hide FieldsOf, FieldAfter;
  }

  /** Every field ends as its owner writes it, or as it was; only a local width may then be fitted to the band. */
  lemma FieldsEndAsWritten(edits: Item, s: Score, limits: Limits, seed: nat, field: Field)
    requires Edited(edits, s, limits, seed).Some? && field in FieldNames()
    ensures field in FieldsOf(s)
    ensures var next := Edited(edits, s, limits, seed).value;
            && (!field.FocusWidth? ==> FieldsOf(next)[field] == FieldAfter(edits, field, FieldsOf(s)[field]))
            && (field.FocusWidth? ==>
                  FieldsOf(next)[field] ==
                  (var w := FieldAfter(edits, field, FieldsOf(s)[field]);
                   if w.Int? && next.max - next.min < w.n then Int(next.max - next.min) else w))
            && next.seed == (if Evolves(edits) then seed else s.seed) && next.floor == s.floor
  {
    hide FieldAfter, Writes;
    var fields := FieldsAfter(edits, s);
    AllFieldsThere(s);
    var chosen := if Evolves(edits) then seed else s.seed;
    DecodedFields(fields, s, field, chosen);
    FittedFields(Decoded(fields, s).(seed := chosen), field, limits);
    hide FieldsOf;
  }

  lemma DecodedFields(fields: Fields, s: Score, field: Field, seed: nat)
    requires WellTyped(fields) && field in FieldNames()
    ensures var decoded := Decoded(fields, s).(seed := seed);
            field in FieldsOf(decoded) && FieldsOf(decoded)[field] == fields[field] && decoded.floor == s.floor
  {
    assert fields[field] == if field.FasterDirection? then Text(fields[field].s) else Int(fields[field].n);
    hide FieldNames, WellTyped;
  }

  lemma FittedFields(s: Score, field: Field, limits: Limits)
    requires field in FieldNames() && Valid(Fitted(s), limits)
    ensures field in FieldsOf(s) && field in FieldsOf(Fitted(s))
    ensures FieldsOf(Fitted(s))[field] ==
            if field.FocusWidth? && s.max - s.min < s.gesture.focusWidth then Int(s.max - s.min) else FieldsOf(s)[field]
    ensures Fitted(s).min == s.min && Fitted(s).max == s.max && Fitted(s).seed == s.seed && Fitted(s).floor == s.floor
    ensures FieldsOf(s)[FocusWidth] == Int(s.gesture.focusWidth)
  {}

  /** A field whose control is not named keeps its value, but for a local width the new band cannot hold. */
  lemma UnnamedControlsAreKept(edits: Item, s: Score, limits: Limits, seed: nat, field: Field)
    requires Edited(edits, s, limits, seed).Some? && field in FieldNames() && OwnerOf(field) !in edits
    ensures var next := Edited(edits, s, limits, seed).value;
            && field in FieldsOf(s)
            && (!field.FocusWidth? ==> FieldsOf(next)[field] == FieldsOf(s)[field])
            && (field.FocusWidth? ==>
                  FieldsOf(next)[field] ==
                  Int(if next.max - next.min < s.gesture.focusWidth then next.max - next.min else s.gesture.focusWidth))
  {
    FieldsEndAsWritten(edits, s, limits, seed, field);
    assert FieldsOf(s)[FocusWidth] == Int(s.gesture.focusWidth);
    hide Edited, OwnerOf, Writes;
  }

  /**
    Regrouping or reordering the same controls gives the same outcome exactly
    when the item cap treats both alike, or neither is wanted anyway.
   */
  lemma RegroupingIsInvisibleExactly(one: seq<Item>, two: seq<Item>, a: Option<Item>, b: Option<Item>, s: Score,
                                     limits: Limits, seed: nat)
    requires SameWriting(one, two) && Collects(one, a) && Collects(two, b)
    ensures a == b
    ensures (Outcome(one, a, s, limits, seed) == Outcome(two, b, s, limits, seed)) <==>
            (|one| <= MAX_ITEMS <==> |two| <= MAX_ITEMS) || a.None? || Edited(a.value, s, limits, seed).None?
  {
    GroupingDoesNotMatter(one, two, a, b);
    hide Edited, Collects;
  }

  /** The score after an edit list, absent when it is refused. */
  function Outcome(items: seq<Item>, edits: Option<Item>, s: Score, limits: Limits, seed: nat): Option<Score> {
    if MAX_ITEMS < |items| || edits.None? then None else Edited(edits.value, s, limits, seed)
  }

  /** Empty items count: nine empty ones are refused where none is accepted, though both write nothing. */
  lemma EmptyItemsCount(s: Score, limits: Limits, seed: nat)
    requires Valid(s, limits)
    ensures var nine: seq<Item> := [map[], map[], map[], map[], map[], map[], map[], map[], map[]];
            && SameWriting([], nine)
            && Outcome([], Some(map[]), s, limits, seed) == Some(s)
            && Outcome(nine, Some(map[]), s, limits, seed) == None
  {
    var nine: seq<Item> := [map[], map[], map[], map[], map[], map[], map[], map[], map[]];
    forall name: Control ensures ValuesOf(nine, name) == ValuesOf([], name) {
      EmptyItemsWriteNothing(nine, name);
    }
    NothingEdited(s, limits, seed);
  }

  predicate AllEmpty(items: seq<Item>) { forall i | 0 <= i < |items| :: items[i] == map[] }

  lemma {:induction false} EmptyItemsWriteNothing(items: seq<Item>, name: Control)
    requires AllEmpty(items)
    ensures ValuesOf(items, name) == multiset{}
    decreases |items|
  {
    if items != [] {
      EmptyItemsWriteNothing(items[..|items| - 1], name);
    }
  }

  lemma DecodedBack(s: Score)
    ensures WellTyped(FieldsOf(s)) && Decoded(FieldsOf(s), s) == s
  {}

  lemma NothingWritten(s: Score)
    ensures FieldsAfter(map[], s) == FieldsOf(s)
  {
    hide FieldsOf, OwnerOf, Writes;
  }

  lemma ValidIsFitted(s: Score, limits: Limits)
    requires Valid(s, limits)
    ensures Fitted(s) == s
  {}

  lemma NothingEdited(s: Score, limits: Limits, seed: nat)
    requires Valid(s, limits)
    ensures Edited(map[], s, limits, seed) == Some(s)
  {
    hide Writes, FieldsAfter, FieldsOf, Decoded, Fitted, Valid, WellTyped;
    DecodedBack(s);
    NothingWritten(s);
    ValidIsFitted(s, limits);
  }
}

/**
  Bounded discovery: the strongest advertisers of an unbounded stream, held in
  a map of at most 64 entries that evicts the weakest.
 */
module Discovery {
  import opened Options
  import opened SqlOrder

  const CAPACITY: nat := 64

  /** `matches` says the advertisement is a candidate for the profile. */
  datatype Advert = Advert(address: string, name: string, rssi: int, matches: bool)
  datatype Candidate = Candidate(address: string, name: string, rssi: int)

  type Found = map<string, Candidate>

  predicate Counts(ad: Advert) { ad.matches && ad.rssi < 0 }

  /** `order` lists every key once, in some order. */
  ghost predicate Visits(order: seq<string>, keys: set<string>) {
    && (forall k :: k in order <==> k in keys)
    && (forall i, j | 0 <= i < j < |order| :: order[i] != order[j])
  }

  /** Search for the weakest entry, the empty key standing for "none yet". */
  function Weakest(order: seq<string>, found: Found, weakest: string): (r: string)
    requires forall k | k in order :: k in found
    requires weakest == "" || weakest in found
    ensures r == "" || r in found
    ensures order != [] ==> r in found
    decreases |order|
  {
    if order == [] then weakest
    else
      var next := if weakest == "" || found[order[0]].rssi < found[weakest].rssi then order[0] else weakest;
      if order[1..] == [] then next else Weakest(order[1..], found, next)
  }

  function Entered(found: Found, ad: Advert, previous: Option<Candidate>): Found {
    var name := if ad.name == "" && previous.Some? then previous.value.name else ad.name;
    var rssi := if previous.Some? && ad.rssi < previous.value.rssi then previous.value.rssi else ad.rssi;
    found[ad.address := Candidate(ad.address, name, rssi)]
  }

  /** One advertisement, with the order in which the runtime happens to visit the map. */
  ghost function Heard(found: Found, ad: Advert, order: seq<string>): Found
    requires Visits(order, found.Keys)
  {
    if !Counts(ad) then found
    else if ad.address in found then Entered(found, ad, Some(found[ad.address]))
    else if |found| == CAPACITY then
      SomeVisited(order, found);
      var weakest := Weakest(order, found, "");
      if ad.rssi <= found[weakest].rssi then found else Entered(found - {weakest}, ad, None)
    else Entered(found, ad, None)
  }

  lemma SomeVisited(order: seq<string>, found: Found)
    requires Visits(order, found.Keys) && found != map[]
    ensures order != []
  {
    var k := SomeMember(found.Keys);
    assert k in order;
  }

  // ----- The search -----

  ghost predicate IsWeakest(found: Found, key: string) {
    key in found && forall k | k in found :: found[key].rssi <= found[k].rssi
  }

  lemma {:induction false} WeakestAppends(order: seq<string>, key: string, found: Found, weakest: string)
    requires (forall k | k in order :: k in found) && key in found
    requires weakest == "" || weakest in found
    ensures forall k | k in order + [key] :: k in found
    ensures var w := Weakest(order, found, weakest);
            Weakest(order + [key], found, weakest) == if w == "" || found[key].rssi < found[w].rssi then key else w
    decreases |order|
  {
    if order == [] {
      assert [key][1..] == [];
      assert order + [key] == [key];
    } else {
      var next := if weakest == "" || found[order[0]].rssi < found[weakest].rssi then order[0] else weakest;
      WeakestAppends(order[1..], key, found, next);
      assert (order + [key])[1..] == order[1..] + [key];
    }
  }

  lemma {:induction false} WeakestIsLeast(order: seq<string>, found: Found, weakest: string)
    requires (forall k | k in order :: k in found) && "" !in order
    requires weakest == "" || weakest in found
    ensures var w := Weakest(order, found, weakest);
            && (w == "" ==> order == [] && weakest == "")
            && (w != "" ==> w in found && (w in order || w == weakest) && forall k | k in order ::
                  found[w].rssi <= found[k].rssi)
            && (weakest != "" ==> w != "" && found[w].rssi <= found[weakest].rssi)
    decreases |order|
  {
    if order != [] {
      var next := if weakest == "" || found[order[0]].rssi < found[weakest].rssi then order[0] else weakest;
      assert order[0] in order;
      assert forall k | k in order[1..] :: k in order;
      WeakestIsLeast(order[1..], found, next);
      assert forall k | k in order :: k == order[0] || k in order[1..];
    }
  }

  /** A blank key, met first, is forgotten by the next key. */
  predicate BlankStrictlyWeakest(found: Found) {
    "" in found && 1 < |found| && forall k | k in found && k != "" :: found[""].rssi < found[k].rssi
  }

  /** Whether the search finds a weakest entry in this visiting order. */
  ghost predicate FindsWeakest(found: Found, order: seq<string>)
    requires forall k | k in order :: k in found
  {
    IsWeakest(found, Weakest(order, found, ""))
  }

  /** A least entry under a real key is found in every visiting order. */
  lemma {:induction false} LeastIsFound(order: seq<string>, found: Found, weakest: string, least: string)
    requires (forall k | k in order :: k in found) && (weakest == "" || weakest in found)
    requires IsWeakest(found, least) && least != ""
    requires least in order || (weakest != "" && IsWeakest(found, weakest))
    ensures FindsFrom(found, order, weakest)
    decreases |order|
  {
    if order != [] {
      var next := if weakest == "" || found[order[0]].rssi < found[weakest].rssi then order[0] else weakest;
      assert forall k | k in order[1..] :: k in order;
      assert least in order ==> order[0] == least || least in order[1..];
      if order[1..] == [] {
        assert order == [order[0]];
      } else {
        LeastIsFound(order[1..], found, next, least);
      }
    }
  }

  ghost predicate FindsFrom(found: Found, order: seq<string>, weakest: string)
    requires (forall k | k in order :: k in found) && (weakest == "" || weakest in found)
  {
    IsWeakest(found, Weakest(order, found, weakest))
  }

  lemma WeakestExists(found: Found, keys: set<string>) returns (weakest: string)
    requires keys != {} && keys <= found.Keys
    ensures weakest in keys && forall k | k in keys :: found[weakest].rssi <= found[k].rssi
  {
    var strengths := set k | k in keys :: found[k].rssi;
    var any := SomeMember(keys);
    assert found[any].rssi in strengths;
    var least := Least(strengths);
    weakest :| weakest in keys && found[weakest].rssi == least;
    forall k | k in keys ensures found[weakest].rssi <= found[k].rssi {
      assert found[k].rssi in strengths;
    }
  }

  lemma {:induction false} OrderExists(keys: set<string>) returns (order: seq<string>)
    ensures Visits(order, keys)
    decreases |keys|
  {
    if keys == {} {
      order := [];
    } else {
      var first := SomeMember(keys);
      var rest := OrderExists(keys - {first});
      order := [first] + rest;
    }
  }

  /** The search is right in every visiting order exactly if no blank address is the strictly weakest of several. */
  lemma SearchFindsWeakestExactly(found: Found)
    requires found != map[]
    ensures (forall order | Visits(order, found.Keys) :: FindsWeakest(found, order)) <==> !BlankStrictlyWeakest(found)
  {
    if BlankStrictlyWeakest(found) {
      BlankFirstMisleads(found);
    } else {
      forall order | Visits(order, found.Keys)
        ensures FindsWeakest(found, order)
      {
        OtherwiseFound(found, order);
      }
    }
  }

  lemma BlankFirstMisleads(found: Found)
    requires BlankStrictlyWeakest(found)
    ensures exists order :: Visits(order, found.Keys) && !FindsWeakest(found, order)
  {
    var rest := OrderExists(found.Keys - {""});
    assert |found.Keys - {""}| == |found| - 1;
    var some := SomeMember(found.Keys - {""});
    assert some in rest;
    BlankIsForgotten(rest, found);
    BlankGoesFirst(rest, found.Keys);
    hide Visits, Weakest;
    assert Visits([""] + rest, found.Keys) && !FindsWeakest(found, [""] + rest);
  }

  lemma BlankGoesFirst(rest: seq<string>, keys: set<string>)
    requires "" in keys && Visits(rest, keys - {""})
    ensures Visits([""] + rest, keys)
  {
    var order := [""] + rest;
    forall k ensures k in order <==> k in keys {
      assert k in order <==> k == "" || k in rest;
    }
    forall i, j | 0 <= i < j < |order| ensures order[i] != order[j] {
      assert order[j] == rest[j - 1];
      assert rest[j - 1] in keys - {""};
    }
  }

  lemma BlankIsForgotten(rest: seq<string>, found: Found)
    requires BlankStrictlyWeakest(found) && rest != [] && "" !in rest && forall k | k in rest :: k in found
    ensures forall k | k in [""] + rest :: k in found
    ensures Weakest([""] + rest, found, "") == Weakest(rest, found, "")
    ensures !IsWeakest(found, Weakest(rest, found, ""))
  {
    assert ([""] + rest)[1..] == rest;
    WeakestIsLeast(rest, found, "");
    assert Weakest(rest, found, "") != "";
  }

  lemma OtherwiseFound(found: Found, order: seq<string>)
    requires found != map[] && !BlankStrictlyWeakest(found) && Visits(order, found.Keys)
    ensures FindsWeakest(found, order)
  {
    var named := found.Keys - {""};
    if named == {} {
      var k := SomeMember(found.Keys);
      forall q | q in found.Keys ensures q == "" {
        assert q !in named;
      }
      SomeVisited(order, found);
    } else {
      var least := WeakestExists(found, named);
      if "" in found {
        assert |found| == |named| + 1;
        assert |named| >= 1 by { assert least in named; }
      }
      assert forall k | k in found :: k == "" || k in named;
      assert IsWeakest(found, least);
      LeastIsFound(order, found, "", least);
    }
  }

  // ----- Streams -----

  datatype Reception = Reception(advert: Advert, order: seq<string>)

  /** Addresses with a counted advertisement, and the strongest seen from each. */
  function Best(history: seq<Advert>): (r: map<string, int>)
    decreases |history|
  {
    if history == [] then map[]
    else
      var before, ad := Best(history[..|history| - 1]), history[|history| - 1];
      if !Counts(ad) || (ad.address in before && ad.rssi <= before[ad.address]) then before
      else before[ad.address := ad.rssi]
  }

  lemma {:induction false} BestIsTheMaximum(history: seq<Advert>, address: string)
    ensures address in Best(history) <==> exists i ::
              0 <= i < |history| && Counts(history[i]) && history[i].address == address
    ensures address in Best(history) ==>
              && (exists i ::
                    0 <= i < |history| && Counts(history[i]) && history[i].address == address
                    && history[i].rssi == Best(history)[address])
              && (forall i | 0 <= i < |history| && Counts(history[i]) && history[i].address == address ::
                    history[i].rssi <= Best(history)[address])
    decreases |history|
  {
    if history != [] {
      var earlier := history[..|history| - 1];
      BestIsTheMaximum(earlier, address);
      forall i | 0 <= i < |earlier| ensures history[i] == earlier[i] {}
    }
  }

  /** The map is the true top of the stream. */
  ghost predicate TrueTop(found: Found, best: map<string, int>) {
    && (forall a | a in found :: a in best && found[a].rssi == best[a] && found[a].address == a)
    && |found| == (if |best| <= CAPACITY then |best| else CAPACITY)
    && (forall a, k | a in best && a !in found && k in found :: best[a] <= found[k].rssi)
  }

  lemma SameKeys<T>(a: set<T>, b: set<T>)
    requires a <= b && |a| == |b|
    ensures a == b
  {
    SubsetSize(a, b);
  }

  /** While nothing was left out, the map holds every address. */
  lemma RoomMeansAll(found: Found, best: map<string, int>)
    requires TrueTop(found, best) && |best| <= CAPACITY
    ensures found.Keys == best.Keys
  {
    SameKeys(found.Keys, best.Keys);
  }

  /** The reference map after one more counted advertisement. */
  function BestWith(best: map<string, int>, ad: Advert): map<string, int> {
    if ad.address in best && ad.rssi <= best[ad.address] then best else best[ad.address := ad.rssi]
  }

  /** A new address stronger than a blank one that is strictly the weakest of a full map. */
  predicate Misleads(found: Found, ad: Advert) {
    ad.address !in found && |found| == CAPACITY && BlankStrictlyWeakest(found) && found[""].rssi < ad.rssi
  }

  /**
    One counted advertisement keeps the true top in every visiting order if and
    only if no blank address misleads the eviction.
   */
  lemma HeardKeepsTrueTopExactly(found: Found, best: map<string, int>, ad: Advert)
    requires TrueTop(found, best) && Counts(ad)
    ensures (forall order | Visits(order, found.Keys) :: TrueTop(Heard(found, ad, order), BestWith(best, ad))) <==>
              !Misleads(found, ad)
  {
    if Misleads(found, ad) {
      MisleadingStep(found, best, ad);
    } else {
      forall order | Visits(order, found.Keys)
        ensures TrueTop(Heard(found, ad, order), BestWith(best, ad))
      {
        HeardKeepsTrueTop(found, best, ad, order);
      }
    }
  }

  lemma HeardKeepsTrueTop(found: Found, best: map<string, int>, ad: Advert, order: seq<string>)
    requires TrueTop(found, best) && Visits(order, found.Keys) && Counts(ad) && !Misleads(found, ad)
    ensures TrueTop(Heard(found, ad, order), BestWith(best, ad))
  {
    if ad.address in found {
    } else if |found| == CAPACITY {
      FullKeepsTrueTop(found, best, ad, order);
    } else {
      RoomMeansAll(found, best);
    }
  }

  lemma FullKeepsTrueTop(found: Found, best: map<string, int>, ad: Advert, order: seq<string>)
    requires TrueTop(found, best) && Visits(order, found.Keys) && Counts(ad) && !Misleads(found, ad)
    requires ad.address !in found && |found| == CAPACITY
    ensures TrueTop(Heard(found, ad, order), BestWith(best, ad))
  {
    SomeVisited(order, found);
    var weakest := Weakest(order, found, "");
    if BlankStrictlyWeakest(found) {
      hide Weakest, Visits, TrueTop;
      assert ad.rssi <= found[""].rssi <= found[weakest].rssi;
      assert IsWeakest(found, "");
      TooWeak(found, best, ad, "");
    } else {
      OtherwiseFound(found, order);
      hide Weakest, Visits, TrueTop, IsWeakest, BlankStrictlyWeakest;
      if ad.rssi <= found[weakest].rssi {
        TooWeak(found, best, ad, weakest);
      } else {
        Evicting(found, best, ad, weakest);
      }
    }
  }

  /** Meeting the blank address first forgets it: either the newcomer is turned away or a stronger entry is evicted. */
  lemma MisleadingStep(found: Found, best: map<string, int>, ad: Advert)
    requires TrueTop(found, best) && Counts(ad) && Misleads(found, ad)
    ensures exists order :: Visits(order, found.Keys) && !TrueTop(Heard(found, ad, order), BestWith(best, ad))
  {
    var rest := OrderExists(found.Keys - {""});
    assert |found.Keys - {""}| == |found| - 1;
    var some := SomeMember(found.Keys - {""});
    assert some in rest;
    var order := [""] + rest;
    BlankIsForgotten(rest, found);
    BlankGoesFirst(rest, found.Keys);
    WeakestIsLeast(rest, found, "");
    SomeVisited(order, found);
    var weakest := Weakest(order, found, "");
    assert weakest != "" && weakest in found;
    WrongOneLeft(found, best, ad, order, weakest);
  }

  lemma WrongOneLeft(found: Found, best: map<string, int>, ad: Advert, order: seq<string>, weakest: string)
    requires TrueTop(found, best) && Counts(ad) && Misleads(found, ad) && Visits(order, found.Keys)
    requires weakest != "" && weakest in found && weakest == Weakest(order, found, "")
    ensures !TrueTop(Heard(found, ad, order), BestWith(best, ad))
  {
    hide Visits, Weakest;
    var next := BestWith(best, ad);
    var after := Heard(found, ad, order);
    assert ad.address in best ==> best[ad.address] <= found[""].rssi;
    assert next == best[ad.address := ad.rssi];
    assert "" in after && after[""].rssi == found[""].rssi;
    if ad.rssi <= found[weakest].rssi {
      assert ad.address in next && ad.address !in after && !(next[ad.address] <= after[""].rssi);
    } else {
      assert weakest in next && weakest !in after && !(next[weakest] <= after[""].rssi);
    }
  }

  lemma TooWeak(found: Found, best: map<string, int>, ad: Advert, weakest: string)
    requires TrueTop(found, best) && |found| == CAPACITY && ad.address !in found
    requires IsWeakest(found, weakest) && ad.rssi <= found[weakest].rssi
    ensures TrueTop(found, BestWith(best, ad))
  {
    if |best| <= CAPACITY {
      RoomMeansAll(found, best);
    }
    var next := BestWith(best, ad);
    assert next.Keys == best.Keys || next.Keys == best.Keys + {ad.address};
    assert |next.Keys| >= |best.Keys|;
  }

  /** Every address left out was no stronger than the evicted entry, so a readmitted one returns at its maximum. */
  lemma Evicting(found: Found, best: map<string, int>, ad: Advert, weakest: string)
    requires TrueTop(found, best) && |found| == CAPACITY && ad.address !in found
    requires IsWeakest(found, weakest) && found[weakest].rssi < ad.rssi
    ensures TrueTop(Entered(found - {weakest}, ad, None), BestWith(best, ad))
  {
    assert ad.address in best ==> best[ad.address] <= found[weakest].rssi;
    var next := best[ad.address := ad.rssi];
    assert next.Keys == best.Keys + {ad.address};
    var after := Entered(found - {weakest}, ad, None);
    assert after.Keys == (found.Keys - {weakest}) + {ad.address};
    assert |after.Keys| == CAPACITY;
    SubsetSize(after.Keys, next.Keys);
    forall a, k | a in next && a !in after && k in after ensures next[a] <= after[k].rssi {
      assert a == weakest || a !in found;
      assert next[a] == best[a] && best[a] <= found[weakest].rssi;
      assert k != ad.address ==> found[weakest].rssi <= found[k].rssi;
    }
  }

  /** The map after a stream of receptions, each visiting the map in its own order. */
  ghost predicate Received(found: Found, stream: seq<Reception>)
    decreases |stream|
  {
    if stream == [] then found == map[]
    else
      var last := stream[|stream| - 1];
      exists before: Found ::
        Received(before, stream[..|stream| - 1]) && Visits(last.order, before.Keys)
            && found == Heard(before, last.advert, last.order)
  }

  function Adverts(stream: seq<Reception>): (r: seq<Advert>)
    ensures |r| == |stream|
    ensures forall i | 0 <= i < |stream| :: r[i] == stream[i].advert
  {
    seq(|stream|, i requires 0 <= i < |stream| => stream[i].advert)
  }

  /** The same, with no step at which a blank address misleads the eviction. */
  ghost predicate ReceivedUnmisled(found: Found, stream: seq<Reception>)
    decreases |stream|
  {
    if stream == [] then found == map[]
    else
      var last := stream[|stream| - 1];
      exists before: Found ::
        && ReceivedUnmisled(before, stream[..|stream| - 1]) && Visits(last.order, before.Keys)
        && found == Heard(before, last.advert, last.order) && (Counts(last.advert) ==> !Misleads(before, last.advert))
  }

  /**
    For any stream, in any visiting orders, the map is the true top 64 of
    everything heard, readmissions included, as long as no step misleads it.
   */
  lemma {:induction false} UnmisledIsTrueTop(found: Found, stream: seq<Reception>)
    requires ReceivedUnmisled(found, stream)
    ensures TrueTop(found, Best(Adverts(stream)))
    decreases |stream|
  {
    if stream != [] {
      var earlier, last := stream[..|stream| - 1], stream[|stream| - 1];
      var before: Found :|
        && ReceivedUnmisled(before, earlier) && Visits(last.order, before.Keys)
        && found == Heard(before, last.advert, last.order) && (Counts(last.advert) ==> !Misleads(before, last.advert));
      UnmisledIsTrueTop(before, earlier);
      assert Adverts(stream)[..|stream| - 1] == Adverts(earlier);
      if Counts(last.advert) {
        HeardKeepsTrueTop(before, Best(Adverts(earlier)), last.advert, last.order);
      }
    }
  }

  /** A stream without a blank address misleads no step, so the map is always its true top 64. */
  lemma {:induction false} DiscoveryIsTrueTop(found: Found, stream: seq<Reception>)
    requires Received(found, stream)
    requires forall r | r in stream :: r.advert.address != ""
    ensures ReceivedUnmisled(found, stream) && "" !in found
    ensures TrueTop(found, Best(Adverts(stream)))
    decreases |stream|
  {
    hide TrueTop;
    if stream != [] {
      var earlier, last := stream[..|stream| - 1], stream[|stream| - 1];
      var before: Found :| Received(before, earlier) && Visits(last.order, before.Keys)
          && found == Heard(before, last.advert, last.order);
      assert forall r | r in earlier :: r in stream;
      DiscoveryIsTrueTop(before, earlier);
      assert last in stream;
      NoBlank(before, last.advert, last.order);
      assert !Misleads(before, last.advert);
      hide Misleads, Heard, Received;
    }
    UnmisledIsTrueTop(found, stream);
  }

  lemma NoBlank(found: Found, ad: Advert, order: seq<string>)
    requires "" !in found && ad.address != "" && Visits(order, found.Keys)
    ensures "" !in Heard(found, ad, order)
  {}

  /** An advertisement of the wanted kind with a real signal strength, from this address. */
  predicate Heeded(ad: Advert, address: string) { ad.matches && ad.rssi <= -1 && ad.address == address }

  lemma HeededIsBest(stream: seq<Reception>, address: string)
    ensures var best := Best(Adverts(stream));
            && (forall r | r in stream && Heeded(r.advert, address) ::
                  address in best && r.advert.rssi <= best[address])
            && (address in best ==> exists r ::
                  r in stream && Heeded(r.advert, address) && r.advert.rssi == best[address])
  {
    var history := Adverts(stream);
    BestIsTheMaximum(history, address);
    hide Best;
    forall r | r in stream && Heeded(r.advert, address)
      ensures address in Best(history) && r.advert.rssi <= Best(history)[address]
    {
      var i :| 0 <= i < |stream| && stream[i] == r;
      assert Counts(history[i]) && history[i].address == address;
    }
    if address in Best(history) {
      var i :| 0 <= i < |history| && Counts(history[i]) && history[i].address == address
               && history[i].rssi == Best(history)[address];
      assert stream[i] in stream && Heeded(stream[i].advert, address);
    }
  }

  /**
    What is shown after a stream no step of which is misled: at most sixty-four
    devices, each with the strongest signal heeded from it; a device heeded and
    not shown gave way to sixty-four at least as strong.
   */
  lemma ShownExactly(found: Found, stream: seq<Reception>, address: string)
    requires ReceivedUnmisled(found, stream)
    ensures |found| <= 64
    ensures address in found ==>
              && found[address].address == address
              && (exists r :: r in stream && Heeded(r.advert, address) && r.advert.rssi == found[address].rssi)
              && (forall r | r in stream && Heeded(r.advert, address) :: r.advert.rssi <= found[address].rssi)
    ensures address !in found ==>
              forall r | r in stream && Heeded(r.advert, address) ::
                |found| == 64 && forall k | k in found :: r.advert.rssi <= found[k].rssi
  {
    UnmisledIsTrueTop(found, stream);
    HeededIsBest(stream, address);
    var best := Best(Adverts(stream));
    hide ReceivedUnmisled, Best, Adverts, Heeded;
    if address in best && address !in found {
      LeftOutMeansFull(found, best, address);
    }
  }

  lemma LeftOutMeansFull(found: Found, best: map<string, int>, address: string)
    requires TrueTop(found, best) && address in best && address !in found
    ensures |found| == 64 && forall k | k in found :: best[address] <= found[k].rssi
  {
    if |best| <= CAPACITY {
      SameKeys(found.Keys, best.Keys);
    }
  }

  /** A device shown keeps its last name heard since it was admitted; one without a name does not erase it. */
  lemma NameIsKept(found: Found, ad: Advert, order: seq<string>)
    requires Visits(order, found.Keys) && Heeded(ad, ad.address) && ad.address in Heard(found, ad, order)
    ensures Heard(found, ad, order)[ad.address].name ==
            if ad.name != "" then ad.name else if ad.address in found then found[ad.address].name else ""
  {}

  /** Two runs over one stream differ only in which of equally strong addresses they kept. */
  lemma OrdersDifferOnlyInTies(one: Found, other: Found, best: map<string, int>, a: string)
    requires TrueTop(one, best) && TrueTop(other, best)
    requires a in one && a !in other
    ensures exists b :: b in other && b !in one && other[b].rssi == one[a].rssi
    ensures forall k | k in other :: one[a].rssi <= other[k].rssi
  {
    Exchange(one.Keys, other.Keys, a);
    var b := SomeMember(other.Keys - one.Keys);
    assert b in other && b !in one;
  }

  lemma Exchange<T>(a: set<T>, b: set<T>, x: T)
    requires |a| == |b| && x in a && x !in b
    ensures b - a != {}
  {
    assert x in a - b;
    assert a == a * b + (a - b) && b == a * b + (b - a);
    assert |a| == |a * b| + |a - b| && |b| == |a * b| + |b - a|;
  }

  /** The scan callback and its map. */
  class Scanner {
    var found: Found

    constructor ()
      ensures found == map[]
    {
      found := map[];
    }

    /** The search over the map, in whatever order the runtime visits it. */
    method FindWeakest() returns (weakest: string, ghost order: seq<string>)
      ensures Visits(order, found.Keys) && weakest == Weakest(order, found, "")
    {
      weakest, order := "", [];
      var unread := found.Keys;
      while unread != {}
        invariant unread <= found.Keys
        invariant Visits(order, found.Keys - unread)
        invariant weakest == Weakest(order, found, "")
        decreases unread
      {
        var key :| key in unread;
        WeakestAppends(order, key, found, "");
        VisitNext(order, found.Keys - unread, key);
        assert found.Keys - (unread - {key}) == (found.Keys - unread) + {key};
        if weakest == "" || found[key].rssi < found[weakest].rssi {
          weakest := key;
        }
        order, unread := order + [key], unread - {key};
      }
      assert found.Keys - unread == found.Keys;
    }

    /** One advertisement. */
    method Advertised(ad: Advert) returns (ghost order: seq<string>)
      modifies this
      ensures Visits(order, old(found).Keys) && found == Heard(old(found), ad, order)
    {
      order := OrderExists(found.Keys);
      if !ad.matches || ad.rssi >= 0 {
        return;
      }
      var previous := if ad.address in found then Some(found[ad.address]) else None;
      if previous.None? && |found| == CAPACITY {
        var weakest;
        weakest, order := FindWeakest();
        SomeVisited(order, found);
        if ad.rssi <= found[weakest].rssi {
          return;
        }
        found := found - {weakest};
      }
      hide Weakest, Visits;
      var name := ad.name;
      if name == "" && previous.Some? {
        name := previous.value.name;
      }
      var rssi := ad.rssi;
      if previous.Some? && rssi < previous.value.rssi {
        rssi := previous.value.rssi;
      }
      found := found[ad.address := Candidate(ad.address, name, rssi)];
    }
  }

  lemma VisitNext(order: seq<string>, keys: set<string>, key: string)
    requires Visits(order, keys) && key !in keys
    ensures Visits(order + [key], keys + {key})
  {
    forall k ensures k in order + [key] <==> k in keys + {key} {
      assert k in order + [key] <==> k in order || k == key;
    }
  }
}

/** The library's stable sort: a permutation, ordered by the comparison, equals in the order they came. */
module StableSort {
  function Insert<T>(x: T, s: seq<T>, leq: (T, T) -> bool): (r: seq<T>)
    ensures |r| == |s| + 1 && multiset(r) == multiset(s) + multiset{x}
  {
    if s == [] then [x]
    else if leq(x, s[0]) then
      assert [x] + s == [x] + s;
      [x] + s
    else
      assert s == [s[0]] + s[1..];
      [s[0]] + Insert(x, s[1..], leq)
  }

  function Sort<T>(s: seq<T>, leq: (T, T) -> bool): (r: seq<T>)
    ensures |r| == |s| && multiset(r) == multiset(s)
  {
    if s == [] then []
    else
      assert s == [s[0]] + s[1..];
      Insert(s[0], Sort(s[1..], leq), leq)
  }

  ghost predicate Ordered<T>(s: seq<T>, leq: (T, T) -> bool) {
    forall i, j | 0 <= i < j < |s| :: leq(s[i], s[j])
  }

  ghost predicate Total<T(!new)>(leq: (T, T) -> bool) {
    && (forall x, y :: leq(x, y) || leq(y, x))
    && (forall x, y, z :: leq(x, y) && leq(y, z) ==> leq(x, z))
  }

  lemma {:induction false} InsertKeepsOrder<T(!new)>(x: T, s: seq<T>, leq: (T, T) -> bool)
    requires Total(leq) && Ordered(s, leq)
    ensures Ordered(Insert(x, s, leq), leq)
  {
    if s != [] && !leq(x, s[0]) {
      InsertKeepsOrder(x, s[1..], leq);
      var rest := Insert(x, s[1..], leq);
      forall j | 0 <= j < |rest| ensures leq(s[0], rest[j]) {
        assert rest[j] in multiset(rest);
        assert rest[j] == x || rest[j] in s[1..];
      }
    } else if s != [] {
      forall j | 0 <= j < |s| ensures leq(x, s[j]) {
        assert j > 0 ==> leq(s[0], s[j]);
      }
    }
  }

  lemma {:induction false} SortOrders<T(!new)>(s: seq<T>, leq: (T, T) -> bool)
    requires Total(leq)
    ensures Ordered(Sort(s, leq), leq)
  {
    if s != [] {
      SortOrders(s[1..], leq);
      InsertKeepsOrder(s[0], Sort(s[1..], leq), leq);
    }
  }

  /** The elements the comparison cannot tell from `x`, in the order they stand in. */
  function Alike<T>(s: seq<T>, x: T, leq: (T, T) -> bool): seq<T> {
    if s == [] then []
    else (if leq(s[0], x) && leq(x, s[0]) then [s[0]] else []) + Alike(s[1..], x, leq)
  }

  lemma {:induction false} InsertIsStable<T(!new)>(y: T, s: seq<T>, x: T, leq: (T, T) -> bool)
    requires Total(leq)
    ensures Alike(Insert(y, s, leq), x, leq) == Alike([y], x, leq) + Alike(s, x, leq)
    decreases |s|
  {
    if s == [] || leq(y, s[0]) {
      assert Insert(y, s, leq) == [y] + s && ([y] + s)[1..] == s;
    } else {
      var rest := Insert(y, s[1..], leq);
      InsertIsStable(y, s[1..], x, leq);
      assert ([s[0]] + rest)[1..] == rest;
    }
  }

  /** Elements the comparison cannot tell apart keep the order they came in. */
  lemma {:induction false} SortIsStable<T(!new)>(s: seq<T>, x: T, leq: (T, T) -> bool)
    requires Total(leq)
    ensures Alike(Sort(s, leq), x, leq) == Alike(s, x, leq)
    decreases |s|
  {
    if s != [] {
      SortIsStable(s[1..], x, leq);
      InsertIsStable(s[0], Sort(s[1..], leq), x, leq);
    }
  }
}

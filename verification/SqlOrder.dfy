/**
  The few SQL ordering idioms the datastore queries use, over a finite set of
  row keys: MIN, MAX, COUNT of newer rows, and
  `ORDER BY key DESC LIMIT 1 OFFSET n`.
 */
module SqlOrder {
  import opened Options

  lemma SomeMember<T>(s: set<T>) returns (x: T)
    requires s != {}
    ensures x in s
  {
    x :| x in s;
  }

  lemma {:induction false} GreatestExists(s: set<int>)
    requires s != {}
    ensures exists m :: m in s && forall x | x in s :: x <= m
  {
    var any := SomeMember(s);
    var rest := s - {any};
    if rest == {} {
      assert s == {any};
    } else {
      GreatestExists(rest);
      var m :| m in rest && forall x | x in rest :: x <= m;
      var g := if m < any then any else m;
      assert forall x | x in s :: x == any || x in rest;
      assert g in s && forall x | x in s :: x <= g;
    }
  }

  /** MAX(key) of a nonempty table. */
  function Greatest(s: set<int>): (m: int)
    requires s != {}
    ensures m in s && forall x | x in s :: x <= m
  {
    GreatestExists(s);
    var m :| m in s && forall x | x in s :: x <= m;
    m
  }

  lemma {:induction false} LeastExists(s: set<int>)
    requires s != {}
    ensures exists m :: m in s && forall x | x in s :: m <= x
  {
    var any := SomeMember(s);
    var rest := s - {any};
    if rest == {} {
      assert s == {any};
    } else {
      LeastExists(rest);
      var m :| m in rest && forall x | x in rest :: m <= x;
      var g := if any < m then any else m;
      assert forall x | x in s :: x == any || x in rest;
      assert g in s && forall x | x in s :: g <= x;
    }
  }

  /** MIN(key) of a nonempty table. */
  function Least(s: set<int>): (m: int)
    requires s != {}
    ensures m in s && forall x | x in s :: m <= x
  {
    LeastExists(s);
    var m :| m in s && forall x | x in s :: m <= x;
    m
  }

  /** The rows strictly above a key. */
  function Above(s: set<int>, key: int): set<int> {
    set x | x in s && key < x
  }

  /** `kept` is the newest `cap` of `rows`, all of them when they fit. */
  ghost predicate NewestKept(rows: set<int>, kept: set<int>, cap: nat) {
    && kept <= rows
    && (forall x, y | x in rows - kept && y in kept :: x < y)
    && (if |rows| <= cap then kept == rows else |kept| == cap)
  }

  /** `SELECT key ... ORDER BY key DESC LIMIT 1 OFFSET offset`. */
  function NthNewest(s: set<int>, offset: nat): (r: Option<int>)
    ensures r.None? <==> |s| <= offset
    ensures r.Some? ==> r.value in s && |Above(s, r.value)| == offset
    decreases offset
  {
    if s == {} then None
    else
      var top := Greatest(s);
      if offset == 0 then
        assert Above(s, top) == {};
        Some(top)
      else
        var rest := s - {top};
        var r := NthNewest(rest, offset - 1);
        assert |rest| == |s| - 1;
        assert r.Some? ==> Above(s, r.value) == Above(rest, r.value) + {top};
        r
  }

  lemma SubsetSize<T>(a: set<T>, b: set<T>)
    requires a <= b
    ensures |a| <= |b|
    ensures |a| == |b| ==> a == b
  {
    assert b == a + (b - a);
    assert |b| == |a| + |b - a|;
    if |a| == |b| {
      assert b - a == {};
    }
  }
}

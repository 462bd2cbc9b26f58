/**
  What one page carries: exactly the committed rows of its window between the
  revision it started after and the revision it lets the reader continue from.
 */
module ChatDelivery {
  import opened Options
  import opened ChatTables
  import opened ChatInvariant
  import opened ChatPage

  /** Merge delivered rows into a cache by display sequence. */
  function Merge(held: map<int, Message>, rows: seq<Row>): map<int, Message> {
    if rows == [] then held
    else Merge(held, rows[..|rows| - 1])[rows[|rows| - 1].number := rows[|rows| - 1].message]
  }

  /** The committed rows of a window with a revision in (after, upTo]. */
  function Slice(l: Log, sid: string, start: int, after: int, upTo: int): map<int, Message> {
    map q | q in Committed(l, sid) && start <= q && after < l.rows[q].revision <= upTo :: l.rows[q]
  }

  lemma {:induction false} MergeKeys(held: map<int, Message>, rows: seq<Row>, q: int)
    ensures q in Merge(held, rows) <==> q in held || exists i :: 0 <= i < |rows| && rows[i].number == q
    ensures q in Merge(held, rows) && !(exists i :: 0 <= i < |rows| && rows[i].number == q) ==>
              Merge(held, rows)[q] == held[q]
    decreases |rows|
  {
    if rows != [] {
      var n := |rows| - 1;
      MergeKeys(held, rows[..n], q);
      assert rows[n].number == q || (forall i | 0 <= i < |rows| && rows[i].number == q :: rows[..n][i].number == q);
      if exists i :: 0 <= i < n && rows[..n][i].number == q {
        var i :| 0 <= i < n && rows[..n][i].number == q;
        assert rows[i].number == q;
      }
    }
  }

  /** Merging rows that agree with the table gives table rows. */
  lemma {:induction false} MergeValue(held: map<int, Message>, rows: seq<Row>, table: map<int, Message>, q: int)
    requires forall i | 0 <= i < |rows| :: rows[i].number in table && rows[i].message == table[rows[i].number]
    requires exists i :: 0 <= i < |rows| && rows[i].number == q
    ensures q in table && q in Merge(held, rows) && Merge(held, rows)[q] == table[q]
    decreases |rows|
  {
    var i :| 0 <= i < |rows| && rows[i].number == q;
    var n := |rows| - 1;
    if rows[n].number != q {
      assert rows[..n][i].number == q;
      MergeValue(held, rows[..n], table, q);
    }
  }

  ghost predicate ByRevision(req: Request) { req.afterRevision.Some? }

  ghost function RangeOf(l: Log, req: Request): Range
    requires req.session in l.sessions
  {
    PageRange(req, l.sessions[req.session], FirstSeq(Committed(l, req.session)))
  }

  ghost function StartOf(l: Log, req: Request): int
    requires req.session in l.sessions
  {
    DisplayStart(l, req, RangeOf(l, req))
  }

  ghost function SelectedBy(l: Log, req: Request): set<int>
    requires req.session in l.sessions
  {
    Selected(l, req, StartOf(l, req), RangeOf(l, req))
  }

  /** The scan's cut: a selected row is either delivered or comes after the last delivered one. */
  lemma CutIsClean(l: Log, req: Request, q: int)
    requires req.session in l.sessions && ByRevision(req) && SessionValid(l, req.session)
    requires q in SelectedBy(l, req)
    ensures var rows := Fetched(l, req, RangeOf(l, req));
      var count := Fitting(rows, PageLimit(req.limit), 0);
      || (exists i :: 0 <= i < count && rows[i].number == q)
      || (count < |rows| && (0 < count ==> rows[count - 1].message.revision < l.rows[q].revision))
  {
    hide First, Fitting, PageRange, Selected;
    var rows := Fetched(l, req, RangeOf(l, req));
    var limit := PageLimit(req.limit);
    var count := Fitting(rows, limit, 0);
    var all := Ordered(l, true, SelectedBy(l, req));
    var i := OrderedHasAll(l, true, SelectedBy(l, req), q);
    assert forall k | 0 <= k < |rows| :: rows[k] == all[k];
    assert count <= limit;
    if i < count {
      assert rows[i].number == q;
    } else if 0 < count {
      assert Before(l, true, all[count - 1].number, all[i].number);
    }
  }

  /** A delivered row was selected and its revision is covered by `nextRevision`. */
  lemma DeliveredRow(l: Log, req: Request, i: nat)
    requires ByRevision(req) && req.session in l.sessions && SessionValid(l, req.session)
    requires ReadPage(l, req).Shown? && i < |ReadPage(l, req).page.messages|
    ensures var page := ReadPage(l, req).page;
      var row := page.messages[i];
      && row.number in SelectedBy(l, req) && row.message == l.rows[row.number]
      && row.message.revision <= page.nextRevision
  {
    hide First, PageRange, DisplayStart, SessionValid;
    var page := ReadPage(l, req).page;
    var all := Ordered(l, true, SelectedBy(l, req));
    var count := |page.messages|;
    assert forall k | 0 <= k < count :: page.messages[k] == all[k];
    assert i < count - 1 ==> Before(l, true, all[i].number, all[count - 1].number);
  }

  /** When rows are left over, the last one delivered lies strictly inside the range. */
  lemma LastRow(l: Log, req: Request)
    requires ByRevision(req) && req.session in l.sessions && SessionValid(l, req.session)
    requires ReadPage(l, req).Shown?
    ensures var page, range := ReadPage(l, req).page, RangeOf(l, req);
      || (page.nextRevision == range.head && page.snapshot == None && page.hasMore == (range.head < page.revision))
      || (range.after < page.nextRevision < range.head && page.snapshot == range.snapshot && page.hasMore
          && page.messages != [])
  {
    hide First, PageRange;
    var page := ReadPage(l, req).page;
    var range := RangeOf(l, req);
    var rows := Fetched(l, req, range);
    var all := Ordered(l, true, SelectedBy(l, req));
    var count := Fitting(rows, PageLimit(req.limit), 0);
    assert forall k | 0 <= k < |rows| :: rows[k] == all[k];
    if count < |rows| {
      assert all[count].number in SelectedBy(l, req) && all[count - 1].number in SelectedBy(l, req);
      assert Before(l, true, all[count - 1].number, all[count].number);
    }
  }

  ghost function SliceOf(l: Log, req: Request, page: Page): map<int, Message>
    requires req.session in l.sessions
  {
    Slice(l, req.session, StartOf(l, req), RangeOf(l, req).after, page.nextRevision)
  }

  lemma SliceIsDelivered(l: Log, req: Request, q: int)
    requires ByRevision(req) && req.session in l.sessions && SessionValid(l, req.session)
    requires ReadPage(l, req).Shown?
    requires q in SliceOf(l, req, ReadPage(l, req).page)
    ensures exists i :: 0 <= i < |ReadPage(l, req).page.messages| && ReadPage(l, req).page.messages[i].number == q
  {
    hide First, Ordered, PageRange, DisplayStart;
    LastRow(l, req);
    var page := ReadPage(l, req).page;
    assert q in SelectedBy(l, req);
    CutIsClean(l, req, q);
    var rows := Fetched(l, req, RangeOf(l, req));
    var count := |page.messages|;
    assert page.messages == rows[..count];
    if exists i :: 0 <= i < count && rows[i].number == q {
      var i :| 0 <= i < count && rows[i].number == q;
      assert page.messages[i].number == q;
    }
  }

  lemma DeliveredIsSlice(l: Log, req: Request, i: nat)
    requires ByRevision(req) && req.session in l.sessions && SessionValid(l, req.session)
    requires ReadPage(l, req).Shown? && i < |ReadPage(l, req).page.messages|
    ensures ReadPage(l, req).page.messages[i].number in SliceOf(l, req, ReadPage(l, req).page)
  {
    hide First, Ordered, PageRange, DisplayStart, ReadPage;
    DeliveredRow(l, req, i);
  }

  /** Each page carries exactly its slice of the conversation. */
  lemma PageCarriesSlice(l: Log, req: Request)
    requires ByRevision(req) && req.session in l.sessions && SessionValid(l, req.session)
    requires ReadPage(l, req).Shown?
    ensures var page := ReadPage(l, req).page;
      Merge(map[], page.messages) == SliceOf(l, req, page)
  {
    hide ReadPage, Merge, RangeOf, StartOf;
    var page := ReadPage(l, req).page;
    var slice, merged := SliceOf(l, req, page), Merge(map[], page.messages);
    forall i | 0 <= i < |page.messages|
      ensures page.messages[i].number in slice && page.messages[i].message == l.rows[page.messages[i].number]
    {
      DeliveredRow(l, req, i);
      DeliveredIsSlice(l, req, i);
    }
    forall q ensures q in merged <==> q in slice {
      MergeKeys(map[], page.messages, q);
      if q in slice {
        SliceIsDelivered(l, req, q);
      }
    }
    forall q | q in slice ensures merged[q] == slice[q] {
      SliceIsDelivered(l, req, q);
      MergeValue(map[], page.messages, l.rows, q);
    }
  }
}

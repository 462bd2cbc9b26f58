/**
  The numbers of a page: how many rows and bytes it may hold, which rows a
  sequence page shows, and exactly when a revision page starts over.
 */
module ChatPages {
  import opened Options
  import opened SqlOrder
  import opened ChatTables
  import opened ChatInvariant
  import opened ChatPage

  /** A request may ask for one to two hundred rows; anything else means two hundred. */
  lemma LimitMeans(limit: int)
    ensures PageLimit(limit) as int == if limit >= 1 && limit <= 200 then limit else 200
  {}

  function EncodedBytes(rows: seq<Row>): nat {
    if rows == [] then 0 else rows[0].message.encoded + EncodedBytes(rows[1..])
  }

  lemma {:induction false} EncodedAppends(rows: seq<Row>, row: Row)
    ensures EncodedBytes(rows + [row]) == EncodedBytes(rows) + row.message.encoded
  {
    if rows == [] {
      assert rows + [row] == [row];
    } else {
      EncodedAppends(rows[1..], row);
      assert (rows + [row])[1..] == rows[1..] + [row];
    }
  }

  lemma {:induction false} CostIs(rows: seq<Row>)
    ensures TotalCost(rows) == EncodedBytes(rows) + 1025 * |rows|
    decreases |rows|
  {
    if rows != [] {
      var init, last := rows[..|rows| - 1], rows[|rows| - 1];
      CostIs(init);
      EncodedAppends(init, last);
      assert init + [last] == rows;
    }
  }

  /** These rows fit on one page: 4 KiB for the rest of it, a kilobyte and a comma beside each row, 256 KiB in all. */
  predicate Fits(rows: seq<Row>, limit: int) {
    |rows| <= (if limit >= 1 && limit <= 200 then limit else 200) && 4096 + EncodedBytes(rows) + 1025 * |rows| <= 262144
  }

  lemma HoldsIsFits(rows: seq<Row>, limit: int)
    ensures Holds(rows, PageLimit(limit)) <==> Fits(rows, limit)
  {
    LimitMeans(limit);
    CostIs(rows);
  }

  lemma AssembledRows(req: Request, s: Session, range: Range, rows: seq<Row>, count: nat, firstSeq: int, latestSeq: int)
    requires count <= |rows| && (count < |rows| ==> 0 < count)
    ensures var page := Assemble(req, s, range, rows, count, firstSeq, latestSeq);
            && page.messages == rows[..count]
            && page.latestSeq == latestSeq && page.firstSeq == firstSeq && page.revision == s.revision
            && page.reset == range.reset && page.historyGap == range.historyGap
            && (page.hasMore <==> count < |rows| || range.head < s.revision)
            && (count < |rows| && req.afterRevision.Some? ==>
                  page.nextRevision == rows[count - 1].message.revision && page.snapshot == range.snapshot)
            && (count == |rows| || req.afterRevision.None? ==> page.nextRevision == range.head && page.snapshot == None)
  {}

  /** A page carries a prefix of the queried rows that fits, and one row more would not fit or does not exist. */
  lemma PageIsTheLongestThatFits(l: Log, req: Request)
    requires req.session in l.sessions && ReadPage(l, req).Shown?
    ensures var s, rows := l.sessions[req.session], Committed(l, req.session);
            var page, fetched := ReadPage(l, req).page, Fetched(l, req, PageRange(req, s, FirstSeq(rows)));
            && page.messages <= fetched && (page.messages != [] ==> Fits(page.messages, req.limit))
            && (page.messages == fetched || !Fits(fetched[..|page.messages| + 1], req.limit))
            && page.revision == s.revision && page.firstSeq == FirstSeq(rows) && page.latestSeq == LatestSeq(rows)
  {
    var s, rows := l.sessions[req.session], Committed(l, req.session);
    var range := PageRange(req, s, FirstSeq(rows));
    var fetched := Fetched(l, req, range);
    var count := Fitting(fetched, PageLimit(req.limit), 0);
    AssembledRows(req, s, range, fetched, count, FirstSeq(rows), LatestSeq(rows));
    if count > 0 {
      HoldsIsFits(fetched[..count], req.limit);
    }
    if count < |fetched| {
      HoldsIsFits(fetched[..count + 1], req.limit);
    }
    hide Assemble, Fitting, Fetched, PageRange, Fits, Holds, Committed;
  }

  /** The reported bounds are the oldest and the newest retained sequence, or zero. */
  lemma BoundsMean(rows: set<int>, q: int)
    ensures rows == {} ==> FirstSeq(rows) == 0 && LatestSeq(rows) == 0
    ensures q in rows ==> FirstSeq(rows) <= q <= LatestSeq(rows) && FirstSeq(rows) in rows && LatestSeq(rows) in rows
  {}

  /** A delta is served to a reader whose position no marker has passed. */
  predicate ServesDelta(req: Request, s: Session) {
    && req.snapshot == None && req.afterRevision.Some? && req.afterRevision.value >= 1
    && req.afterRevision.value <= s.revision && req.afterRevision.value >= s.reset
    && req.afterRevision.value >= s.pruned
  }

  /** A pending reset goes on if nothing it covers was deleted or pruned since it was anchored. */
  predicate ServesContinuation(req: Request, s: Session, firstSeq: int) {
    && req.snapshot.Some? && req.afterRevision.Some?
    && var anchor := req.snapshot.value;
    && anchor.revision <= s.revision && req.afterRevision.value >= 1 && req.afterRevision.value < anchor.revision
    && s.reset <= anchor.revision && s.pruned == anchor.pruned && firstSeq == anchor.firstSeq
  }

  /** A revision page starts over if and only if it can serve neither a delta nor a continuation. */
  lemma ResetsExactly(req: Request, s: Session, firstSeq: int)
    requires req.afterRevision.Some?
    ensures PageRange(req, s, firstSeq).reset <==> !ServesDelta(req, s) && !ServesContinuation(req, s, firstSeq)
    ensures PageRange(req, s, firstSeq).reset ==>
              PageRange(req, s, firstSeq).(historyGap := false) ==
              Range(0, s.revision, Some(Snapshot(s.revision, s.pruned, firstSeq)), true, false)
    ensures ServesDelta(req, s) ==>
              PageRange(req, s, firstSeq) == Range(req.afterRevision.value, s.revision, None, false, false)
    ensures ServesContinuation(req, s, firstSeq) ==>
              PageRange(req, s, firstSeq) ==
              Range(req.afterRevision.value, req.snapshot.value.revision, req.snapshot, false, false)
  {}

  /** The rows a sequence page may show. */
  ghost function After(l: Log, req: Request): (r: set<int>)
    ensures r <= l.rows.Keys
  {
    set q | q in Committed(l, req.session) && q > req.afterSequence
  }

  lemma SequenceRows(l: Log, req: Request)
    requires RowsValid(l) && req.session in l.sessions && req.afterRevision.None? && !req.recentOnly
    requires SessionValid(l, req.session)
    ensures var s := l.sessions[req.session];
            var range := PageRange(req, s, FirstSeq(Committed(l, req.session)));
            && range.(after := 0) == Range(0, s.revision, None, false, false)
            && Selected(l, req, 0, range) == After(l, req)
            && Fetched(l, req, range) <= Ordered(l, false, After(l, req))
  {
    hide First;
    var range := PageRange(req, l.sessions[req.session], FirstSeq(Committed(l, req.session)));
    assert Selected(l, req, 0, range) == After(l, req);
  }

  lemma SequencePage(l: Log, req: Request)
    requires RowsValid(l) && req.session in l.sessions && req.afterRevision.None? && !req.recentOnly
    requires SessionValid(l, req.session) && ReadPage(l, req).Shown?
    ensures var page := ReadPage(l, req).page;
            && !page.reset && !page.historyGap && page.snapshot == None
            && page.nextRevision == l.sessions[req.session].revision
            && page.messages <= Ordered(l, false, After(l, req))
  {
    var s, rows := l.sessions[req.session], Committed(l, req.session);
    var range := PageRange(req, s, FirstSeq(rows));
    var fetched := Fetched(l, req, range);
    SequenceRows(l, req);
    AssembledRows(req, s, range, fetched, Fitting(fetched, PageLimit(req.limit), 0), FirstSeq(rows), LatestSeq(rows));
    hide Assemble, Fitting, Fetched, PageRange, Committed, Ordered, After, RowsValid, SessionValid;
  }

  /** A sequence page shows the oldest visible rows after a sequence, in order. */
  lemma SequencePageShows(l: Log, req: Request, i: nat)
    requires RowsValid(l) && req.session in l.sessions && req.afterRevision.None? && !req.recentOnly
    requires SessionValid(l, req.session) && ReadPage(l, req).Shown? && i < |ReadPage(l, req).page.messages|
    ensures var page := ReadPage(l, req).page;
            var row := page.messages[i];
            && !page.reset && !page.historyGap && page.snapshot == None
            && page.nextRevision == l.sessions[req.session].revision
            && row.number in Committed(l, req.session) && row.message == l.rows[row.number]
            && row.number > req.afterSequence
            && (i > 0 ==> page.messages[i - 1].number < row.number)
            && (forall q | q in Committed(l, req.session) && q > req.afterSequence && q < row.number ::
                  exists j :: 0 <= j < i && page.messages[j].number == q)
  {
    SequencePage(l, req);
    var rows, all := ReadPage(l, req).page.messages, Ordered(l, false, After(l, req));
    assert forall j | 0 <= j < |rows| :: rows[j] == all[j];
    hide ReadPage, RowsValid, SessionValid, Ordered, Committed;
    forall q | q in Committed(l, req.session) && q > req.afterSequence && q < rows[i].number
      ensures exists j :: 0 <= j < i && rows[j].number == q
    {
      var j := OrderedHasAll(l, false, After(l, req), q);
      assert !Before(l, false, all[i].number, all[j].number);
      assert j < i && rows[j].number == q;
    }
  }
}

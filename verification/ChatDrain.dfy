/**
  The reader's side of the contract: every page passes the browser's own
  validation and makes progress, and reading until `hasMore` is false ends.
 */
module ChatDrain {
  import opened Options
  import opened ChatTables
  import opened ChatInvariant
  import opened ChatEvolution
  import opened ChatPage
  import opened ChatDelivery
  import opened ChatRecovery

  /** The browser's structural check of a revision-mode page. */
  ghost predicate WellFormed(page: Page) {
    && |page.messages| <= DISPLAY_CAP
    && 0 <= page.nextRevision <= page.revision
    && (if page.latestSeq == 0 then page.firstSeq == 0 else 0 < page.firstSeq <= page.latestSeq)
    && (forall i | 0 <= i < |page.messages| ::
          && page.firstSeq <= page.messages[i].number <= page.latestSeq && 0 < page.messages[i].number
          && 0 < page.messages[i].message.revision <= page.nextRevision)
    && (forall i, j | 0 <= i < j < |page.messages| :: page.messages[i].number != page.messages[j].number)
    && (page.snapshot.Some? ==>
          && 0 <= page.snapshot.value.pruned <= page.snapshot.value.revision <= page.revision
          && page.nextRevision < page.snapshot.value.revision
          && page.snapshot.value.firstSeq == page.firstSeq && page.hasMore)
  }

  /** The browser's progress check against the position it asked from. */
  ghost predicate Advances(page: Page, before: int) {
    page.reset || (before <= page.nextRevision && (page.hasMore ==> before < page.nextRevision))
  }

  lemma DeliveredShape(l: Log, req: Request)
    requires Valid(l) && req.session in l.sessions && ByRevision(req) && ReadPage(l, req).Shown?
    ensures var page := ReadPage(l, req).page;
      && |page.messages| <= DISPLAY_CAP
      && page.latestSeq == LatestSeq(Committed(l, req.session))
      && (forall i, j | 0 <= i < j < |page.messages| :: page.messages[i].number != page.messages[j].number)
  {
    hide First, Valid, Before, Ordered;
    DeliveredPrefix(l, req);
    hide ReadPage;
    var page := ReadPage(l, req).page;
    var all := Ordered(l, true, SelectedBy(l, req));
    hide SelectedBy;
    forall i, j | 0 <= i < j < |page.messages| ensures page.messages[i].number != page.messages[j].number {
      assert Before(l, true, all[i].number, all[j].number);
      BeforeDiffers(l, all[i].number, all[j].number);
    }
  }

  lemma BeforeDiffers(l: Log, a: int, b: int)
    requires a in l.rows && b in l.rows && Before(l, true, a, b)
    ensures a != b
  {}

  /** The delivered rows are the first of those selected. */
  lemma DeliveredPrefix(l: Log, req: Request)
    requires req.session in l.sessions && ByRevision(req) && ReadPage(l, req).Shown?
    ensures var page := ReadPage(l, req).page;
      var all := Ordered(l, true, SelectedBy(l, req));
      && |page.messages| <= DISPLAY_CAP && |page.messages| <= |all| && page.messages == all[..|page.messages|]
      && page.latestSeq == LatestSeq(Committed(l, req.session))
  {
    hide First, Before, Ordered, Committed, LatestSeq, FirstSeq, PageRange, DisplayStart, Selected, Fitting;
  }

  lemma DeliveredBounds(l: Log, req: Request, i: nat)
    requires Valid(l) && req.session in l.sessions && ByRevision(req) && ReadPage(l, req).Shown?
    requires i < |ReadPage(l, req).page.messages|
    ensures var page := ReadPage(l, req).page;
      && page.firstSeq <= page.messages[i].number <= page.latestSeq && 0 < page.messages[i].number
      && 0 < page.messages[i].message.revision <= page.nextRevision
  {
    assert RowsValid(l) && SessionValid(l, req.session);
    DeliveredRow(l, req, i);
    DeliveredShape(l, req);
    PageKeepsReset(l, req);
    hide ReadPage, PageRange, RowsValid;
    assert ReadPage(l, req).page.messages[i].number in Committed(l, req.session);
    hide Selected, Committed;
  }

  /** A continuation the browser accepted earlier; the server only issues such ones. */
  ghost predicate Issued(req: Request) {
    req.snapshot.Some? ==> 0 <= req.snapshot.value.pruned <= req.snapshot.value.revision
  }

  lemma PositionBounds(l: Log, req: Request)
    requires Valid(l) && req.session in l.sessions && ByRevision(req) && Issued(req) && ReadPage(l, req).Shown?
    ensures var page := ReadPage(l, req).page;
      && 0 <= page.nextRevision <= page.revision
      && (page.snapshot.Some? ==>
            && 0 <= page.snapshot.value.pruned <= page.snapshot.value.revision <= page.revision
            && page.nextRevision < page.snapshot.value.revision
            && page.snapshot.value.firstSeq == page.firstSeq && page.hasMore)
  {
    MarkersOf(l, req.session);
    PageKeepsReset(l, req);
    PageRangeChosen(l, req);
    LastRow(l, req);
    hide ReadPage, RangeOf, Valid, Committed, FirstSeq, LatestSeq;
  }

  /** Every page the server answers a revision request with passes the browser's check. */
  lemma EveryPageIsWellFormed(l: Log, req: Request)
    requires Valid(l) && req.session in l.sessions && ByRevision(req) && Issued(req) && ReadPage(l, req).Shown?
    ensures WellFormed(ReadPage(l, req).page)
  {
    var page := ReadPage(l, req).page;
    hide ReadPage, PageRange, RowsValid, SessionValid, Committed, FirstSeq, LatestSeq;
    forall i | 0 <= i < |page.messages|
      ensures page.firstSeq <= page.messages[i].number <= page.latestSeq && 0 < page.messages[i].number
      ensures 0 < page.messages[i].message.revision <= page.nextRevision
    {
      DeliveredBounds(l, req, i);
    }
    DeliveredShape(l, req);
    PageKeepsReset(l, req);
    PositionBounds(l, req);
    BoundsOrdered(l, req.session);
  }

  lemma BoundsOrdered(l: Log, sid: string)
    requires RowsValid(l)
    ensures var first, latest := FirstSeq(Committed(l, sid)), LatestSeq(Committed(l, sid));
      if latest == 0 then first == 0 else 0 < first <= latest
  {
  }

  /** A reader that echoes its position always passes the progress check. */
  lemma EveryPageAdvances(w: World, sid: string, recentOnly: bool, limit: int)
    requires Inv(w, sid, recentOnly) && Delivered(w, sid, recentOnly, limit)
    ensures Advances(DeliveredPage(w, sid, recentOnly, limit), w.client.next)
  {
    PageReceived(w, sid, recentOnly, limit);
    hide ReadPage, PageRange, Receive, Slice, Committed, FirstSeq, Evolved, Valid;
  }

  /** The preview limits leave room for at least one row on every page. */
  lemma ReadNeverFails(l: Log, req: Request)
    requires req.session in l.sessions
    ensures ReadPage(l, req).Shown?
  {
    hide Ordered, PageRange, DisplayStart, Selected, FirstSeq;
    var fetched := Fetched(l, req, PageRange(req, l.sessions[req.session], FirstSeq(Committed(l, req.session))));
    if fetched != [] {
      assert fetched[..1] == [fetched[0]];
      assert TotalCost([fetched[0]]) == Cost(fetched[0]);
      FittingIsLongest(fetched, PageLimit(req.limit), 1);
    }
  }

  /** The next read resumes without a reset. */
  ghost predicate Resumable(w: World, sid: string)
    requires sid in w.log.sessions
  {
    var s := w.log.sessions[sid];
    && 0 < w.client.next <= s.revision
    && if w.client.snapshot.Some? then
         Resumes(w.client.snapshot.value, w.client.next, s, FirstSeq(Committed(w.log, sid)))
       else
         s.reset <= w.client.next && s.pruned <= w.client.next
  }

  lemma ReaderPosition(w: World, sid: string, recentOnly: bool)
    requires Inv(w, sid, recentOnly)
    ensures sid in w.log.sessions && sid in w.base.sessions
    ensures 0 <= w.client.next <= w.log.sessions[sid].revision
    ensures w.client.snapshot.Some? ==>
      w.client.snapshot.value.pruned <= w.client.snapshot.value.revision ==
          Anchor(w, sid) <= w.log.sessions[sid].revision
    ensures w.seen == w.log ==> w.client.held == Window(w.log, sid, w.client.next, Anchor(w, sid), w.start)
    ensures !recentOnly ==> w.start == 0
  {
    assert SessionValid(w.base, sid);
    hide RowsEvolved, TableEvolved, RowsValid, Window, LostTracked;
  }

  lemma InvMeansValid(w: World, sid: string, recentOnly: bool)
    requires Inv(w, sid, recentOnly)
    ensures Valid(w.log)
  {
  }

  /** With no writer in between, a page that promises more is followed by a page that delivers it. */
  lemma DrainStep(w: World, sid: string, recentOnly: bool, limit: int)
    requires Inv(w, sid, recentOnly) && Delivered(w, sid, recentOnly, limit)
    ensures var w', page := Step(w, Reader(limit), sid, recentOnly), DeliveredPage(w, sid, recentOnly, limit);
      && w'.log == w.log && w'.seen == w.log
      && (Resumable(w, sid) ==> !page.reset && w.client.next <= w'.client.next
                                && (page.hasMore ==> w.client.next < w'.client.next))
      && (page.hasMore ==> Resumable(w', sid))
      && (!page.hasMore ==> w'.client.next == w.log.sessions[sid].revision)
      && (page.hasMore && page.messages == [] ==> w.client.snapshot.Some? && w'.client.next == Anchor(w, sid))
  {
    hide ReadPage, RangeOf, Receive, Slice, Committed, FirstSeq, Step, Inv, Valid;
    InvMeansValid(w, sid, recentOnly);
    MarkersOf(w.log, sid);
    ReaderPosition(w, sid, recentOnly);
    PageReceived(w, sid, recentOnly, limit);
    StepReads(w, sid, recentOnly, limit);
    ResumableKeepsRange(w, sid, Ask(w.client, sid, limit, recentOnly));
  }

  lemma ResumableKeepsRange(w: World, sid: string, req: Request)
    requires sid in w.log.sessions && req.session == sid && ByRevision(req)
    requires req.afterRevision == Some(w.client.next) && req.snapshot == w.client.snapshot
    ensures Resumable(w, sid) ==> !RangeOf(w.log, req).reset
  {
    hide Committed, FirstSeq;
  }

  /**
    Reading until `hasMore` is false, with no writer in between: it ends, resets
    at most once, and leaves the reader holding the whole retained window.
   */
  method Drain(w0: World, sid: string, recentOnly: bool, limit: int) returns (w: World, resets: nat)
    requires Inv(w0, sid, recentOnly)
    ensures Inv(w, sid, recentOnly) && w.log == w0.log && resets <= 1
    ensures w.client.next == w.log.sessions[sid].revision
    ensures w.client.held == Window(w.log, sid, w.client.next, Anchor(w, sid), w.start)
    ensures !recentOnly ==> w.client.held == Slice(w.log, sid, 0, 0, w.client.next)
  {
    hide ReadPage, Step, RangeOf, Receive, Inv, Window, Slice;
    w, resets := w0, 0;
    ReaderPosition(w, sid, recentOnly);
    var more := true;
    var resumed := false;
    while more
      invariant Inv(w, sid, recentOnly) && w.log == w0.log
      invariant sid in w.log.sessions && w.client.next <= w.log.sessions[sid].revision
      invariant resets <= 1
      invariant if resumed then more ==> Resumable(w, sid) else more && resets == 0
      invariant !more ==> w.client.next == w.log.sessions[sid].revision && w.seen == w.log
      decreases more, !resumed, w.log.sessions[sid].revision - w.client.next
    {
      var request := Ask(w.client, sid, limit, recentOnly);
      ReadNeverFails(w.log, request);
      DrainStep(w, sid, recentOnly, limit);
      ReaderKeepsInv(w, sid, recentOnly, limit);
      var page := ReadPage(w.log, request).page;
      ReaderPosition(Step(w, Reader(limit), sid, recentOnly), sid, recentOnly);
      w := Step(w, Reader(limit), sid, recentOnly);
      if page.reset {
        resets := resets + 1;
      }
      more, resumed := page.hasMore, true;
    }
    ReaderPosition(w, sid, recentOnly);
    InvMeansValid(w, sid, recentOnly);
    WholeWindow(w.log, sid, w.client.next, Anchor(w, sid));
  }
}

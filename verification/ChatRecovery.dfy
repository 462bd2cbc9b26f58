/**
  A reader that echoes what it was last told, interleaved with any writers.
  After every page its cache is an exact mirror of the retained conversation
  up to the revision it was told to continue from.
 */
module ChatRecovery {
  import opened Options
  import opened SqlOrder
  import opened ChatTables
  import opened ChatInvariant
  import opened ChatEvolution
  import opened ChatPage
  import opened ChatDelivery

  /** The reader's cache, and the two values it sends back. */
  datatype Client = Client(held: map<int, Message>, next: int, snapshot: Option<Snapshot>)

  function Ask(c: Client, sid: string, limit: int, recentOnly: bool): Request {
    Request(sid, 0, Some(c.next), c.snapshot, limit, recentOnly)
  }

  /** Replace the cache on reset, drop rows below the first retained one, merge by sequence. */
  function Receive(c: Client, page: Page): Client {
    var kept := if page.reset then map[] else map q | q in c.held && page.firstSeq <= q :: c.held[q];
    Client(Merge(kept, page.messages), page.nextRevision, page.snapshot)
  }

  /**
    The log and one reader, with history: the log at the last page (`seen`), at
    the last reset (`base`, whose window began at `start`), and the rows pruned
    since the last page.
   */
  datatype World = World(log: Log, client: Client, seen: Log, base: Log, start: int, lost: map<int, nat>)

  datatype Event = Writer(write: Write) | Reader(limit: int)

  /** The rows a transaction pruned from a conversation, with their revisions. */
  function PrunedBy(l: Log, w: Write, sid: string): map<int, nat>
    requires sid in l.sessions
  {
    PrunedBetween(l, w, Apply(l, w), sid)
  }

  function PrunedBetween(l: Log, w: Write, l': Log, sid: string): map<int, nat>
    requires sid in l.sessions
  {
    if w.DeleteMessage? then map[]
    else
      var dropped := map q | q in Committed(l, sid) && q !in Committed(l', sid) :: l.rows[q].revision;
      if sid in l'.sessions && l.sessions[sid].revision < l'.sessions[sid].revision
          && Target(l, w) !in Committed(l', sid)
      then dropped[Target(l, w) := l'.sessions[sid].revision]
      else dropped
  }

  function Step(w: World, e: Event, sid: string, recentOnly: bool): World
    requires sid in w.log.sessions
  {
    match e
    case Writer(write) => w.(log := Apply(w.log, write), lost := w.lost + PrunedBy(w.log, write, sid))
    case Reader(limit) =>
      var request := Ask(w.client, sid, limit, recentOnly);
      match ReadPage(w.log, request)
      case Failed(_) => w
      case Shown(page) =>
        var next := w.(client := Receive(w.client, page), seen := w.log, lost := map[]);
        if page.reset then
          var range := PageRange(request, w.log.sessions[sid], FirstSeq(Committed(w.log, sid)));
          next.(base := w.log, start := DisplayStart(w.log, request, range))
        else next
  }

  /** The part of the conversation a reader at `next` should hold. */
  function Window(l: Log, sid: string, next: int, anchor: int, start: int): map<int, Message> {
    map q | q in Committed(l, sid) && l.rows[q].revision <= next && (anchor < l.rows[q].revision || start <= q) ::
        l.rows[q]
  }

  ghost function Anchor(w: World, sid: string): int
    requires sid in w.base.sessions
  {
    w.base.sessions[sid].revision
  }

  /** The logs of the history are ordered in time. */
  ghost predicate Chronological(w: World, sid: string) {
    && Valid(w.log) && Valid(w.seen) && Valid(w.base)
    && Evolved(w.base, w.seen, sid) && Evolved(w.seen, w.log, sid) && Evolved(w.base, w.log, sid)
  }

  /** The reader mirrors the conversation as of its last page. */
  ghost predicate Mirrors(w: World, sid: string)
    requires sid in w.base.sessions && sid in w.seen.sessions
  {
    var anchor := Anchor(w, sid);
    && 0 <= w.client.next <= w.seen.sessions[sid].revision
    && w.client.held == Window(w.seen, sid, w.client.next, anchor, w.start)
    && (w.client.snapshot == None && 0 < w.client.next ==> anchor <= w.client.next)
  }

  /** A pending continuation is anchored at the last reset. */
  ghost predicate Anchored(w: World, sid: string, recentOnly: bool)
    requires sid in w.base.sessions
  {
    var s := w.base.sessions[sid];
    && w.start == (if recentOnly then WindowStart(w.base, sid, s.revision) else 0)
    && (w.client.snapshot.Some? ==>
          && w.client.snapshot.value == Snapshot(s.revision, s.pruned, FirstSeq(Committed(w.base, sid)))
          && w.client.next < s.revision)
  }

  /** What `lost` records: rows gone for good, below the marker, known at the reset if old enough. */
  ghost predicate LostTracked(w: World, sid: string)
    requires sid in w.base.sessions && sid in w.log.sessions
  {
    forall q | q in w.lost ::
      && q !in w.log.rows && q < w.log.nextSeq
      && w.lost[q] <= w.log.sessions[sid].pruned
      && (w.lost[q] <= Anchor(w, sid) ==> q in Committed(w.base, sid))
  }

  ghost predicate Inv(w: World, sid: string, recentOnly: bool) {
    && Chronological(w, sid)
    && Mirrors(w, sid)
    && Anchored(w, sid, recentOnly)
    && LostTracked(w, sid)
  }

  // ----- Continuations -----

  /**
    A continuation the server accepts covers rows that are all still there:
    none was deleted (the reset marker would have passed the anchor) and none
    was pruned (the first retained sequence would have changed, even when the
    pruning marker did not).
   */
  lemma AcceptedMeansNothingLost(base: Log, l: Log, sid: string, after: int)
    requires Valid(base) && Evolved(base, l, sid)
    requires var s := base.sessions[sid];
      Resumes(Snapshot(s.revision, s.pruned, FirstSeq(Committed(base, sid))), after, l.sessions[sid],
              FirstSeq(Committed(l, sid)))
    ensures Committed(base, sid) <= Committed(l, sid)
    ensures forall q | q in Committed(base, sid) :: l.rows[q] == base.rows[q]
    ensures UpTo(l, sid, base.sessions[sid].revision) == Committed(base, sid)
  {
    hide Committed, Outgrown;
    var rows, rows' := Committed(base, sid), Committed(l, sid);
    forall x | x in rows ensures x in rows' {
      if x !in rows' {
        FirstSeqMoved(base, l, sid, x);
        assert false;
      }
    }
    forall q | q in rows ensures l.rows[q] == base.rows[q] {
      SameRow(base, l, sid, q);
    }
  }

  /** Losing any row to pruning moves the first retained sequence. */
  lemma FirstSeqMoved(base: Log, l: Log, sid: string, x: int)
    requires Valid(base) && Evolved(base, l, sid)
    requires l.sessions[sid].reset == base.sessions[sid].reset
    requires x in Committed(base, sid) && x !in Committed(l, sid)
    ensures FirstSeq(Committed(base, sid)) <= x < FirstSeq(Committed(l, sid))
  {
    hide Committed;
    var rows' := Committed(l, sid);
    assert Outgrown(l, sid, x, base.rows[x].revision);
    assert |rows'| == RETENTION_CAP;
    assert rows' != {};
  }

  // ----- The cache after one page -----

  lemma {:induction false} MergeIsUnion(held: map<int, Message>, rows: seq<Row>)
    ensures Merge(held, rows) == held + Merge(map[], rows)
    decreases |rows|
  {
    if rows != [] {
      MergeIsUnion(held, rows[..|rows| - 1]);
    }
  }

  lemma ReceivedUnion(c: Client, l: Log, req: Request)
    requires ByRevision(req) && req.session in l.sessions && SessionValid(l, req.session)
    requires ReadPage(l, req).Shown?
    ensures var page := ReadPage(l, req).page;
      var kept := if page.reset then map[] else map q | q in c.held && page.firstSeq <= q :: c.held[q];
      Receive(c, page).held == kept + SliceOf(l, req, page)
  {
    hide ReadPage, SliceOf, Merge;
    var page := ReadPage(l, req).page;
    PageCarriesSlice(l, req);
    var kept := if page.reset then map[] else map q | q in c.held && page.firstSeq <= q :: c.held[q];
    MergeIsUnion(kept, page.messages);
  }

  /** The first page of a reset holds the window up to where it stopped. */
  lemma ResetWindow(l: Log, sid: string, next: int, start: int)
    requires Valid(l) && sid in l.sessions && next <= l.sessions[sid].revision
    ensures Slice(l, sid, start, 0, next) == Window(l, sid, next, l.sessions[sid].revision, start)
  {
    assert SessionValid(l, sid);
  }

  /** A row present before and after was present in between. */
  lemma StillThere(base: Log, seen: Log, l: Log, sid: string, q: int)
    requires Valid(base) && TableEvolved(base, seen) && TableEvolved(seen, l) && TableEvolved(base, l)
    requires q in Committed(base, sid) && q in Committed(l, sid)
    ensures q in Committed(seen, sid)
  {
    assert RowsValid(base);
  }

  /** Adding the next slice to an up-to-date window advances the window. */
  lemma WindowAdvances(l: Log, sid: string, before: int, next: int, anchor: int, start: int, from: int)
    requires before <= next && RowsValid(l)
    requires if anchor <= before then from == 0 else next <= anchor && from == start
    ensures Window(l, sid, before, anchor, start) + Slice(l, sid, from, before, next) ==
              Window(l, sid, next, anchor, start)
  {
  }

  /** Nothing anchored was lost, so the window the reader holds is still current. */
  lemma AnchoredWindowCurrent(base: Log, seen: Log, l: Log, sid: string, before: int, start: int)
    requires Valid(base) && Evolved(base, seen, sid) && Evolved(seen, l, sid) && Evolved(base, l, sid)
    requires Committed(base, sid) <= Committed(l, sid)
    requires before <= base.sessions[sid].revision
    ensures var anchor := base.sessions[sid].revision;
      Window(seen, sid, before, anchor, start) == Window(l, sid, before, anchor, start)
  {
    var anchor := base.sessions[sid].revision;
    var held, now := Window(seen, sid, before, anchor, start), Window(l, sid, before, anchor, start);
    hide MarkersEvolved, Outgrown;
    forall q | q in held ensures q in now && now[q] == held[q] {
      SameRow(seen, l, sid, q);
    }
    forall q | q in now ensures q in held {
      StillThere(base, seen, l, sid, q);
      SameRow(seen, l, sid, q);
    }
  }

  lemma WindowStarts(l: Log, sid: string, next: int, anchor: int, start: int)
    ensures forall q | q in Window(l, sid, next, anchor, start) :: FirstSeq(Committed(l, sid)) <= q
  {
  }

  /** Rows a delta reader holds are either retained or below the first retained sequence. */
  lemma DeltaTrims(seen: Log, l: Log, sid: string, q: int)
    requires Valid(seen) && Evolved(seen, l, sid) && q in Committed(seen, sid)
    requires l.sessions[sid].reset == seen.sessions[sid].reset
    ensures q in Committed(l, sid) <==> FirstSeq(Committed(l, sid)) <= q
  {
    hide Committed;
    if q !in Committed(l, sid) {
      FirstSeqMoved(seen, l, sid, q);
    }
  }

  /** Dropping rows below the first retained one leaves exactly the current window. */
  lemma TrimmedWindowCurrent(seen: Log, l: Log, sid: string, before: int, anchor: int, start: int)
    requires Valid(seen) && Evolved(seen, l, sid)
    requires l.sessions[sid].reset == seen.sessions[sid].reset
    requires before <= seen.sessions[sid].revision
    ensures var held := Window(seen, sid, before, anchor, start);
      (map q | q in held && FirstSeq(Committed(l, sid)) <= q :: held[q]) == Window(l, sid, before, anchor, start)
  {
    var held, now := Window(seen, sid, before, anchor, start), Window(l, sid, before, anchor, start);
    hide MarkersEvolved, Outgrown, FirstSeq;
    forall q | q in held && FirstSeq(Committed(l, sid)) <= q ensures q in now && now[q] == held[q] {
      DeltaTrims(seen, l, sid, q);
      SameRow(seen, l, sid, q);
    }
    forall q | q in now ensures q in held && FirstSeq(Committed(l, sid)) <= q {
      assert q in Committed(seen, sid);
      DeltaTrims(seen, l, sid, q);
      SameRow(seen, l, sid, q);
    }
  }

  // ----- The invariant over every interleaving -----

  ghost predicate Delivered(w: World, sid: string, recentOnly: bool, limit: int) {
    sid in w.log.sessions && ReadPage(w.log, Ask(w.client, sid, limit, recentOnly)).Shown?
  }

  ghost function DeliveredPage(w: World, sid: string, recentOnly: bool, limit: int): Page
    requires Delivered(w, sid, recentOnly, limit)
  {
    ReadPage(w.log, Ask(w.client, sid, limit, recentOnly)).page
  }

  /** What the mirror and the anchor must be after a page. */
  ghost predicate PageApplied(w: World, sid: string, recentOnly: bool, limit: int)
    requires Delivered(w, sid, recentOnly, limit)
  {
    var w' := Step(w, Reader(limit), sid, recentOnly);
    && sid in w'.base.sessions && sid in w'.seen.sessions
    && w'.log == w.log && w'.seen == w.log && w'.lost == map[]
    && w'.base == (if DeliveredPage(w, sid, recentOnly, limit).reset then w.log else w.base)
    && Mirrors(w', sid) && Anchored(w', sid, recentOnly)
  }

  /** How the request's range was chosen. */
  ghost predicate RangeChosen(l: Log, req: Request)
    requires req.session in l.sessions
  {
    var s, first, range := l.sessions[req.session], FirstSeq(Committed(l, req.session)), RangeOf(l, req);
    if range.reset then
      && range.after == 0 && range.head == s.revision
      && range.snapshot == Some(Snapshot(s.revision, s.pruned, first))
    else
      && req.afterRevision == Some(range.after)
      && if req.snapshot.Some? then
           && Resumes(req.snapshot.value, range.after, s, first)
           && range.head == req.snapshot.value.revision && range.snapshot == req.snapshot
         else
           && 0 < range.after <= s.revision && s.reset <= range.after && s.pruned <= range.after
           && range.head == s.revision && range.snapshot == None
  }

  lemma PageRangeChosen(l: Log, req: Request)
    requires req.session in l.sessions && ByRevision(req)
    ensures RangeChosen(l, req)
  {
    hide Committed;
  }

  lemma PageKeepsReset(l: Log, req: Request)
    requires req.session in l.sessions && ReadPage(l, req).Shown?
    ensures var page, range := ReadPage(l, req).page, RangeOf(l, req);
      && page.reset == range.reset && page.historyGap == range.historyGap
      && page.firstSeq == FirstSeq(Committed(l, req.session)) && page.revision == l.sessions[req.session].revision
  {
    hide Fetched, Fitting, PageRange;
  }

  lemma SliceDef(l: Log, req: Request, page: Page)
    requires req.session in l.sessions
    ensures SliceOf(l, req, page) == Slice(l, req.session, StartOf(l, req), RangeOf(l, req).after, page.nextRevision)
  {
  }

  lemma StepReads(w: World, sid: string, recentOnly: bool, limit: int)
    requires Delivered(w, sid, recentOnly, limit)
    ensures var w', page := Step(w, Reader(limit), sid, recentOnly), DeliveredPage(w, sid, recentOnly, limit);
      && w'.log == w.log && w'.seen == w.log && w'.lost == map[]
      && w'.client == Receive(w.client, page)
      && w'.base == (if page.reset then w.log else w.base)
      && w'.start == (if page.reset then StartOf(w.log, Ask(w.client, sid, limit, recentOnly)) else w.start)
  {
    hide ReadPage, Receive, DisplayStart, PageRange, Committed;
  }

  /** One page, seen by the reader: its cache, and how the range was chosen. */
  lemma PageReceived(w: World, sid: string, recentOnly: bool, limit: int)
    requires Valid(w.log) && Delivered(w, sid, recentOnly, limit)
    ensures var req, page := Ask(w.client, sid, limit, recentOnly), DeliveredPage(w, sid, recentOnly, limit);
      var range := RangeOf(w.log, req);
      var kept := if page.reset then map[] else map q | q in w.client.held && page.firstSeq <= q :: w.client.held[q];
      && RangeChosen(w.log, req) && page.reset == range.reset
      && page.firstSeq == FirstSeq(Committed(w.log, sid)) && page.revision == w.log.sessions[sid].revision
      && Receive(w.client, page).held == kept + Slice(w.log, sid, StartOf(w.log, req), range.after, page.nextRevision)
      && Receive(w.client, page).next == page.nextRevision && Receive(w.client, page).snapshot == page.snapshot
      && (|| (page.nextRevision == range.head && page.snapshot == None && page.hasMore == (range.head < page.revision))
          || (range.after < page.nextRevision < range.head && page.snapshot == range.snapshot && page.hasMore
              && page.messages != []))
  {
    var req := Ask(w.client, sid, limit, recentOnly);
    var page := DeliveredPage(w, sid, recentOnly, limit);
    PageRangeChosen(w.log, req);
    PageKeepsReset(w.log, req);
    LastRow(w.log, req);
    ReceivedUnion(w.client, w.log, req);
    SliceDef(w.log, req, page);
    hide ReadPage, Merge, SliceOf, Slice, Committed, PageRange, DisplayStart, RangeChosen;
  }

  lemma ResetApplies(w: World, sid: string, recentOnly: bool, limit: int)
    requires Inv(w, sid, recentOnly) && Delivered(w, sid, recentOnly, limit)
    requires DeliveredPage(w, sid, recentOnly, limit).reset
    ensures PageApplied(w, sid, recentOnly, limit)
  {
    hide ReadPage, Receive, Slice, Window, Committed, PageRange, Step, Evolved, LostTracked, RowsValid, SessionValid,
         WindowStart;
    PageReceived(w, sid, recentOnly, limit);
    StepReads(w, sid, recentOnly, limit);
    var page := DeliveredPage(w, sid, recentOnly, limit);
    ResetWindow(w.log, sid, page.nextRevision, StartOf(w.log, Ask(w.client, sid, limit, recentOnly)));
  }

  lemma ContinuationApplies(w: World, sid: string, recentOnly: bool, limit: int)
    requires Inv(w, sid, recentOnly) && Delivered(w, sid, recentOnly, limit)
    requires !DeliveredPage(w, sid, recentOnly, limit).reset && w.client.snapshot.Some?
    ensures PageApplied(w, sid, recentOnly, limit)
  {
    hide ReadPage, Receive, Slice, Window, Committed, PageRange, Step, UpTo, WindowStart, RowsEvolved, TableEvolved,
         RowsValid, SessionValid;
    var page := DeliveredPage(w, sid, recentOnly, limit);
    var anchor, before := Anchor(w, sid), w.client.next;
    PageReceived(w, sid, recentOnly, limit);
    StepReads(w, sid, recentOnly, limit);
    AcceptedMeansNothingLost(w.base, w.log, sid, before);
    AnchoredStart(w.base, w.log, sid);
    AnchoredWindowCurrent(w.base, w.seen, w.log, sid, before, w.start);
    WindowStarts(w.log, sid, before, anchor, w.start);
    WindowAdvances(w.log, sid, before, page.nextRevision, anchor, w.start, w.start);
    KeepAll(w.client.held, page.firstSeq);
  }

  lemma KeepAll(held: map<int, Message>, from: int)
    requires forall q | q in held :: from <= q
    ensures (map q | q in held && from <= q :: held[q]) == held
  {
  }

  /** Later commits have higher revisions, so the anchored display window does not move. */
  lemma AnchoredStart(base: Log, l: Log, sid: string)
    requires Valid(base) && sid in base.sessions
    requires UpTo(l, sid, base.sessions[sid].revision) == Committed(base, sid)
    ensures WindowStart(l, sid, base.sessions[sid].revision) == WindowStart(base, sid, base.sessions[sid].revision)
  {
    assert SessionValid(base, sid);
    forall q | q in Committed(base, sid) ensures q in UpTo(base, sid, base.sessions[sid].revision) {
    }
    assert UpTo(base, sid, base.sessions[sid].revision) == Committed(base, sid);
  }

  lemma DeltaApplies(w: World, sid: string, recentOnly: bool, limit: int)
    requires Inv(w, sid, recentOnly) && Delivered(w, sid, recentOnly, limit)
    requires !DeliveredPage(w, sid, recentOnly, limit).reset && w.client.snapshot == None
    ensures PageApplied(w, sid, recentOnly, limit)
  {
    hide ReadPage, Receive, Slice, Window, Committed, PageRange, Step, RowsEvolved, TableEvolved;
    var page := DeliveredPage(w, sid, recentOnly, limit);
    var before := w.client.next;
    PageReceived(w, sid, recentOnly, limit);
    StepReads(w, sid, recentOnly, limit);
    TrimmedWindowCurrent(w.seen, w.log, sid, before, Anchor(w, sid), w.start);
    WindowAdvances(w.log, sid, before, page.nextRevision, Anchor(w, sid), w.start, 0);
  }

  lemma AppliedKeepsInv(w: World, sid: string, recentOnly: bool, limit: int)
    requires Inv(w, sid, recentOnly) && Delivered(w, sid, recentOnly, limit)
    requires PageApplied(w, sid, recentOnly, limit)
    ensures Inv(Step(w, Reader(limit), sid, recentOnly), sid, recentOnly)
  {
    hide Step, DeliveredPage, Mirrors, Anchored, RowsEvolved, TableEvolved, MarkersEvolved, RowsValid, SessionValid;
    EvolvedReflexive(w.log, sid);
  }

  lemma ReaderKeepsInv(w: World, sid: string, recentOnly: bool, limit: int)
    requires Inv(w, sid, recentOnly)
    ensures Inv(Step(w, Reader(limit), sid, recentOnly), sid, recentOnly)
    ensures Delivered(w, sid, recentOnly, limit) ==> PageApplied(w, sid, recentOnly, limit)
  {
    hide PageRange, Mirrors, Anchored, Chronological, LostTracked, PageApplied, Receive, DisplayStart;
    if Delivered(w, sid, recentOnly, limit) {
      if DeliveredPage(w, sid, recentOnly, limit).reset {
        ResetApplies(w, sid, recentOnly, limit);
      } else if w.client.snapshot.Some? {
        ContinuationApplies(w, sid, recentOnly, limit);
      } else {
        DeltaApplies(w, sid, recentOnly, limit);
      }
      hide ReadPage, Step;
      AppliedKeepsInv(w, sid, recentOnly, limit);
    }
  }

  /** Rows a transaction prunes are gone, covered by the marker, and old ones were known at the reset. */
  lemma PrunedAreLost(base: Log, l: Log, w: Write, l': Log, sid: string, q: int)
    requires Valid(base) && Valid(l) && Evolved(base, l, sid)
    requires sid in l'.sessions && SessionStep(l, w, l', sid) && TableEvolved(l, l')
    requires q in PrunedBetween(l, w, l', sid)
    ensures q !in l'.rows && q < l'.nextSeq
    ensures PrunedBetween(l, w, l', sid)[q] <= l'.sessions[sid].pruned
    ensures PrunedBetween(l, w, l', sid)[q] <= base.sessions[sid].revision ==> q in Committed(base, sid)
  {
    hide SessionValid, Deleted;
    var target, newest := Target(l, w), l.sessions[sid].revision + 1;
    if q in Committed(l, sid) && q !in Committed(l', sid) {
      assert Published(l, l', sid, target);
      assert l.rows[q].revision in GoneRevisions(l, Committed(l, sid), Committed(l', sid), target, newest);
    } else {
      assert Published(l, l', sid, target);
      assert newest in GoneRevisions(l, Committed(l, sid), Committed(l', sid), target, newest);
    }
  }

  lemma LostGrows(w: World, write: Write, l': Log, sid: string, q: int)
    requires Valid(w.base) && Valid(w.log) && Evolved(w.base, w.log, sid) && LostTracked(w, sid)
    requires sid in l'.sessions && SessionStep(w.log, write, l', sid) && TableEvolved(w.log, l')
    requires q in w.lost + PrunedBetween(w.log, write, l', sid)
    ensures var lost := w.lost + PrunedBetween(w.log, write, l', sid);
      && q !in l'.rows && q < l'.nextSeq && lost[q] <= l'.sessions[sid].pruned
      && (lost[q] <= Anchor(w, sid) ==> q in Committed(w.base, sid))
  {
    hide RowsValid, SessionValid, RowsEvolved, Committed, SessionStep;
    if q in PrunedBetween(w.log, write, l', sid) {
      PrunedAreLost(w.base, w.log, write, l', sid, q);
    } else {
      MarkersStep(w.log, write, l', sid);
    }
  }

  lemma WriterKeepsLost(w: World, write: Write, sid: string, recentOnly: bool)
    requires Inv(w, sid, recentOnly)
    requires sid in Apply(w.log, write).sessions
    ensures LostTracked(Step(w, Writer(write), sid, recentOnly), sid)
  {
    hide Apply, SessionStep, Mirrors, Anchored, RowsValid, SessionValid, TableEvolved, RowsEvolved, MarkersEvolved,
         Committed, PrunedBetween;
    var l, l' := w.log, Apply(w.log, write);
    EveryWriteIsAStep(l, write, sid);
    WriteTable(l, write);
    forall q | q in w.lost + PrunedBetween(l, write, l', sid)
      ensures var lost := w.lost + PrunedBetween(l, write, l', sid);
        && q !in l'.rows && q < l'.nextSeq && lost[q] <= l'.sessions[sid].pruned
        && (lost[q] <= Anchor(w, sid) ==> q in Committed(w.base, sid))
    {
      LostGrows(w, write, l', sid, q);
    }
  }

  lemma WriterKeepsInv(w: World, write: Write, sid: string, recentOnly: bool)
    requires Inv(w, sid, recentOnly)
    ensures Inv(Step(w, Writer(write), sid, recentOnly), sid, recentOnly)
  {
    hide Apply, PrunedBy, Valid, LostTracked, Mirrors, Anchored, TableEvolved, RowsEvolved, MarkersEvolved;
    WriteKeepsValid(w.log, write);
    EvolvedStep(w.base, w.log, write, sid);
    EvolvedStep(w.seen, w.log, write, sid);
    WriterKeepsLost(w, write, sid, recentOnly);
    SameReader(w, write, sid, recentOnly);
  }

  /** A writer moves neither the reader nor its history. */
  lemma SameReader(w: World, write: Write, sid: string, recentOnly: bool)
    requires sid in w.log.sessions && sid in w.base.sessions && sid in w.seen.sessions
    ensures var w' := Step(w, Writer(write), sid, recentOnly);
      && w'.log == Apply(w.log, write) && w'.client == w.client && w'.seen == w.seen && w'.base == w.base
      && w'.start == w.start
      && (Mirrors(w, sid) ==> Mirrors(w', sid)) && (Anchored(w, sid, recentOnly) ==> Anchored(w', sid, recentOnly))
  {
    hide Apply, PrunedBy;
  }

  function Run(w: World, events: seq<Event>, sid: string, recentOnly: bool): (r: World)
    requires sid in w.log.sessions && Valid(w.log)
    decreases |events|
  {
    if events == [] then w
    else
      StepKeepsSessions(w, events[0], sid, recentOnly);
      Run(Step(w, events[0], sid, recentOnly), events[1..], sid, recentOnly)
  }

  lemma StepKeepsSessions(w: World, e: Event, sid: string, recentOnly: bool)
    requires sid in w.log.sessions && Valid(w.log)
    ensures sid in Step(w, e, sid, recentOnly).log.sessions && Valid(Step(w, e, sid, recentOnly).log)
  {
    if e.Writer? {
      WriteKeepsValid(w.log, e.write);
      hide Apply, Valid;
    } else {
      hide ReadPage, Valid;
    }
  }

  /** A reader that has read nothing yet. */
  function Fresh(l: Log, sid: string, recentOnly: bool): World
    requires sid in l.sessions
  {
    World(l, Client(map[], 0, None), l, l, if recentOnly then WindowStart(l, sid, l.sessions[sid].revision) else 0,
          map[])
  }

  lemma FreshInv(l: Log, sid: string, recentOnly: bool)
    requires Valid(l) && sid in l.sessions
    ensures Inv(Fresh(l, sid, recentOnly), sid, recentOnly)
  {
    EvolvedReflexive(l, sid);
    assert SessionValid(l, sid);
    hide Evolved;
    assert Window(l, sid, 0, l.sessions[sid].revision, Fresh(l, sid, recentOnly).start) == map[];
  }

  lemma {:induction false} RunKeepsInv(w: World, events: seq<Event>, sid: string, recentOnly: bool)
    requires Inv(w, sid, recentOnly)
    ensures Inv(Run(w, events, sid, recentOnly), sid, recentOnly)
    decreases |events|
  {
    hide Step, Mirrors, Anchored, LostTracked, TableEvolved, RowsEvolved, MarkersEvolved;
    if events != [] {
      var next := Step(w, events[0], sid, recentOnly);
      if events[0].Writer? {
        WriterKeepsInv(w, events[0].write, sid, recentOnly);
      } else {
        ReaderKeepsInv(w, sid, recentOnly, events[0].limit);
      }
      RunKeepsInv(next, events[1..], sid, recentOnly);
    }
  }

  // ----- Main results -----

  /**
    For every log, every interleaving of writers and this reader, and every
    page it then receives: the cache equals the retained rows up to the
    revision it may continue from, so no retained row is missing and no
    deleted or pruned row is kept. A display-window reader holds the same,
    less what its last reset left below the window.
   */
  lemma MirrorAfterEveryPage(l: Log, events: seq<Event>, sid: string, recentOnly: bool, limit: int)
    requires Valid(l) && sid in l.sessions
    requires Delivered(Run(Fresh(l, sid, recentOnly), events, sid, recentOnly), sid, recentOnly, limit)
    ensures var w := Step(Run(Fresh(l, sid, recentOnly), events, sid, recentOnly), Reader(limit), sid, recentOnly);
      && sid in w.base.sessions
      && w.client.held == Window(w.log, sid, w.client.next, Anchor(w, sid), w.start)
      && (!recentOnly ==> w.client.held == Slice(w.log, sid, 0, 0, w.client.next))
  {
    var w0 := Fresh(l, sid, recentOnly);
    FreshInv(l, sid, recentOnly);
    RunKeepsInv(w0, events, sid, recentOnly);
    var w := Run(w0, events, sid, recentOnly);
    ReaderKeepsInv(w, sid, recentOnly, limit);
    var w' := Step(w, Reader(limit), sid, recentOnly);
    hide Run, Fresh, Step, ReadPage;
    if !recentOnly {
      WholeWindow(w'.log, sid, w'.client.next, Anchor(w', sid));
    }
  }

  lemma WholeWindow(l: Log, sid: string, next: int, anchor: int)
    requires Valid(l) && sid in l.sessions
    ensures Window(l, sid, next, anchor, 0) == Slice(l, sid, 0, 0, next)
  {
    assert RowsValid(l) && SessionValid(l, sid);
    hide RowsValid, SessionValid;
    var window, slice := Window(l, sid, next, anchor, 0), Slice(l, sid, 0, 0, next);
    forall q ensures q in window <==> q in slice {
      if q in Committed(l, sid) {
        assert 0 < q && 1 <= l.rows[q].revision;
      }
    }
  }

  lemma WindowIsNewest(rows: set<int>, start: int)
    requires forall q | q in rows :: 0 < q
    requires start == (match NthNewest(rows, DISPLAY_CAP - 1) case None => 0 case Some(q) => q)
    ensures NewestKept(rows, (set q | q in rows && start <= q), DISPLAY_CAP)
  {
    var kept := set q | q in rows && start <= q;
    if |rows| < DISPLAY_CAP {
      assert kept == rows;
    } else {
      assert kept == Above(rows, start) + {start};
      SubsetSize(kept, rows);
    }
  }

  /** Throughout a reset, the window is the newest rows committed at its anchor. */
  lemma WindowPinned(w: World, sid: string, limit: int)
    requires Inv(w, sid, true) && Delivered(w, sid, true, limit)
    requires DeliveredPage(w, sid, true, limit).reset || w.client.snapshot.Some?
    ensures var w' := Step(w, Reader(limit), sid, true);
      && sid in w'.base.sessions && sid in w'.log.sessions
      && w'.start == WindowStart(w'.log, sid, Anchor(w', sid))
  {
    ReaderKeepsInv(w, sid, true, limit);
    StepReads(w, sid, true, limit);
    PageReceived(w, sid, true, limit);
    hide Step, ReadPage, PageRange, Receive, WindowStart, UpTo, Committed, Slice, Window, TableEvolved, RowsEvolved,
         SessionValid, RowsValid;
    if !DeliveredPage(w, sid, true, limit).reset {
      AcceptedMeansNothingLost(w.base, w.log, sid, w.client.next);
      AnchoredStart(w.base, w.log, sid);
    }
  }

  /**
    When a display-window reset hands off to deltas, the union of its pages is
    exactly the newest DISPLAY_CAP rows committed at its anchor, whatever was
    committed between the pages.
   */
  lemma RecentResetIsNewestWindow(l: Log, events: seq<Event>, sid: string, limit: int)
    requires Valid(l) && sid in l.sessions
    requires var w := Run(Fresh(l, sid, true), events, sid, true);
      && Delivered(w, sid, true, limit)
      && (DeliveredPage(w, sid, true, limit).reset || w.client.snapshot.Some?)
    requires var w := Step(Run(Fresh(l, sid, true), events, sid, true), Reader(limit), sid, true);
      sid in w.base.sessions && w.client.snapshot == None && w.client.next == Anchor(w, sid)
    ensures var w := Step(Run(Fresh(l, sid, true), events, sid, true), Reader(limit), sid, true);
      && NewestKept(UpTo(w.log, sid, Anchor(w, sid)), w.client.held.Keys, DISPLAY_CAP)
  {
    var before := Run(Fresh(l, sid, true), events, sid, true);
    var w := Step(before, Reader(limit), sid, true);
    MirrorAfterEveryPage(l, events, sid, true, limit);
    FreshInv(l, sid, true);
    RunKeepsInv(Fresh(l, sid, true), events, sid, true);
    ReaderKeepsInv(before, sid, true, limit);
    WindowPinned(before, sid, limit);
    hide Run, Fresh, Step, ReadPage, TableEvolved, RowsEvolved, SessionValid, LostTracked, Mirrors, Anchored;
    FullWindowIsNewest(w.log, sid, Anchor(w, sid), w.start);
  }

  lemma FullWindowIsNewest(l: Log, sid: string, anchor: int, start: int)
    requires RowsValid(l) && start == WindowStart(l, sid, anchor)
    ensures NewestKept(UpTo(l, sid, anchor), Window(l, sid, anchor, anchor, start).Keys, DISPLAY_CAP)
  {
    hide NewestKept;
    var rows := UpTo(l, sid, anchor);
    WindowIsNewest(rows, start);
    assert Window(l, sid, anchor, anchor, start).Keys == set q | q in rows && start <= q;
  }

  /** A row lost since the last page always blocks the pending continuation. */
  lemma LossBlocksContinuation(w: World, sid: string, recentOnly: bool, q: int)
    requires Inv(w, sid, recentOnly) && q in w.lost && w.client.next < w.lost[q]
    ensures w.client.snapshot.Some? ==>
      !Resumes(w.client.snapshot.value, w.client.next, w.log.sessions[sid], FirstSeq(Committed(w.log, sid)))
  {
    assert SessionValid(w.base, sid);
    hide Committed, TableEvolved, RowsEvolved, Mirrors, FirstSeq, RowsValid, SessionValid;
    if w.client.snapshot.Some? &&
       Resumes(w.client.snapshot.value, w.client.next, w.log.sessions[sid], FirstSeq(Committed(w.log, sid))) {
      AcceptedMeansNothingLost(w.base, w.log, sid, w.client.next);
      assert false;
    }
  }

  /**
    A row committed past a nonzero position and pruned before it was delivered
    is always announced: the next page reports a gap and starts over.
   */
  lemma LossIsAnnounced(w: World, sid: string, recentOnly: bool, limit: int, q: int)
    requires Inv(w, sid, recentOnly) && Delivered(w, sid, recentOnly, limit)
    requires 0 < w.client.next && q in w.lost && w.client.next < w.lost[q]
    ensures DeliveredPage(w, sid, recentOnly, limit).historyGap && DeliveredPage(w, sid, recentOnly, limit).reset
  {
    hide ReadPage, Resumes, PageRange, FirstSeq, Committed, RowsValid, SessionValid, TableEvolved, RowsEvolved, Mirrors,
         Anchored;
    LossBlocksContinuation(w, sid, recentOnly, q);
    var req := Ask(w.client, sid, limit, recentOnly);
    PageKeepsReset(w.log, req);
    GapRule(req, w.log.sessions[sid], FirstSeq(Committed(w.log, sid)));
  }

  lemma GapRule(req: Request, s: Session, firstSeq: int)
    requires req.afterRevision.Some? && 0 < req.afterRevision.value < s.pruned
    requires req.snapshot.Some? ==> !Resumes(req.snapshot.value, req.afterRevision.value, s, firstSeq)
    ensures PageRange(req, s, firstSeq).historyGap && PageRange(req, s, firstSeq).reset
  {
  }
}

/**
  When a page reports a gap in history: exactly after a loss past the reader's
  position, or when a pending reset that had already skipped one is abandoned.
 */
module ChatGap {
  import opened Options
  import opened SqlOrder
  import opened ChatTables
  import opened ChatInvariant
  import opened ChatEvolution
  import opened ChatPage
  import opened ChatDelivery
  import opened ChatRecovery

  /**
    The pruning marker has moved since the last page only by a row that was lost
    since; and the last page left the reader at or past the marker of that time,
    or inside a reset anchored at it.
   */
  ghost predicate MarkerTracked(w: World, sid: string) {
    && sid in w.log.sessions && sid in w.seen.sessions
    && var marker, earlier := w.log.sessions[sid].pruned, w.seen.sessions[sid].pruned;
    && (marker == earlier || exists q :: q in w.lost && w.lost[q] == marker)
    && (0 < w.client.next && w.client.snapshot == None ==> earlier <= w.client.next)
    && (w.client.snapshot.Some? ==> w.client.snapshot.value.pruned == earlier)
  }

  /** A transaction that raises the marker raises it to the revision of a row it pruned. */
  lemma MarkerIsPruned(l: Log, write: Write, l': Log, sid: string)
    requires sid in l.sessions && sid in l'.sessions && SessionStep(l, write, l', sid)
    ensures var pruned := PrunedBetween(l, write, l', sid);
            || l'.sessions[sid].pruned == l.sessions[sid].pruned
            || exists q :: q in pruned && pruned[q] == l'.sessions[sid].pruned
  {
    hide NewestKept, Committed, Arrives;
    var pruned, marker := PrunedBetween(l, write, l', sid), l'.sessions[sid].pruned;
    if marker != l.sessions[sid].pruned {
      var target, newest := Target(l, write), l.sessions[sid].revision + 1;
      assert Published(l, l', sid, target);
      assert marker in GoneRevisions(l, Committed(l, sid), Committed(l', sid), target, newest);
      if target !in Committed(l', sid) && marker == newest {
        assert target in pruned && pruned[target] == marker;
      } else {
        var q :| q in Committed(l, sid) - Committed(l', sid) && l.rows[q].revision == marker;
        assert q in pruned && pruned[q] == marker;
      }
    }
  }

  /** A row already lost is not pruned again. */
  lemma LostOnce(l: Log, write: Write, l': Log, sid: string, q: int)
    requires sid in l.sessions && sid in l'.sessions && SessionStep(l, write, l', sid)
    requires q !in l.rows && q < l.nextSeq
    ensures q !in PrunedBetween(l, write, l', sid)
  {
    hide NewestKept, GoneRevisions;
  }

  lemma WriterKeepsMarker(w: World, write: Write, sid: string, recentOnly: bool)
    requires Inv(w, sid, recentOnly) && MarkerTracked(w, sid)
    ensures MarkerTracked(Step(w, Writer(write), sid, recentOnly), sid)
  {
    EveryWriteIsAStep(w.log, write, sid);
    SameReader(w, write, sid, recentOnly);
    hide Apply, SessionStep, Mirrors, Anchored, Chronological, PrunedBetween;
    var l, l' := w.log, Apply(w.log, write);
    var lost := w.lost + PrunedBetween(l, write, l', sid);
    MarkerIsPruned(l, write, l', sid);
    if l'.sessions[sid].pruned == l.sessions[sid].pruned && l.sessions[sid].pruned != w.seen.sessions[sid].pruned {
      var q :| q in w.lost && w.lost[q] == l.sessions[sid].pruned;
      LostOnce(l, write, l', sid, q);
      assert q in lost && lost[q] == l'.sessions[sid].pruned;
    } else if l'.sessions[sid].pruned != l.sessions[sid].pruned {
      var pruned := PrunedBetween(l, write, l', sid);
      var q :| q in pruned && pruned[q] == l'.sessions[sid].pruned;
      assert q in lost && lost[q] == l'.sessions[sid].pruned;
    }
  }

  lemma ReaderKeepsMarker(w: World, sid: string, recentOnly: bool, limit: int)
    requires Inv(w, sid, recentOnly) && MarkerTracked(w, sid)
    ensures MarkerTracked(Step(w, Reader(limit), sid, recentOnly), sid)
  {
    if Delivered(w, sid, recentOnly, limit) {
      PageReceived(w, sid, recentOnly, limit);
      StepReads(w, sid, recentOnly, limit);
      assert SessionValid(w.log, sid) && SessionValid(w.base, sid);
      hide ReadPage, Receive, Slice, Committed, PageRange, DisplayStart, Step, Mirrors, LostTracked, FirstSeq,
           TableEvolved, RowsEvolved, MarkersEvolved, RowsValid, WindowStart;
    } else {
      hide ReadPage, PageRange, DisplayStart, Receive, Inv;
    }
  }

  lemma {:induction false} RunKeepsMarker(w: World, events: seq<Event>, sid: string, recentOnly: bool)
    requires Inv(w, sid, recentOnly) && MarkerTracked(w, sid)
    ensures Inv(Run(w, events, sid, recentOnly), sid, recentOnly) && MarkerTracked(Run(w, events, sid, recentOnly), sid)
    decreases |events|
  {
    hide Step, Mirrors, Anchored, LostTracked, TableEvolved, RowsEvolved, MarkersEvolved, MarkerTracked;
    if events != [] {
      if events[0].Writer? {
        WriterKeepsInv(w, events[0].write, sid, recentOnly);
        WriterKeepsMarker(w, events[0].write, sid, recentOnly);
      } else {
        ReaderKeepsInv(w, sid, recentOnly, events[0].limit);
        ReaderKeepsMarker(w, sid, recentOnly, events[0].limit);
      }
      RunKeepsMarker(Step(w, events[0], sid, recentOnly), events[1..], sid, recentOnly);
    }
  }

  /** Some row past the reader's position was lost since its last page. */
  ghost predicate LostPast(w: World) {
    exists q :: q in w.lost && w.client.next < w.lost[q]
  }

  /** A reset under way, anchored when rows past the reader's position were already pruned, is abandoned. */
  ghost predicate AbandonsShortReset(w: World, page: Page) {
    page.reset && w.client.snapshot.Some? && w.client.next < w.client.snapshot.value.pruned
  }

  lemma GapMeans(w: World, sid: string, recentOnly: bool, limit: int)
    requires Inv(w, sid, recentOnly) && MarkerTracked(w, sid) && Delivered(w, sid, recentOnly, limit)
    ensures var page := DeliveredPage(w, sid, recentOnly, limit);
            page.historyGap <==> 0 < w.client.next && (LostPast(w) || AbandonsShortReset(w, page))
  {
    var req, page := Ask(w.client, sid, limit, recentOnly), DeliveredPage(w, sid, recentOnly, limit);
    PageKeepsReset(w.log, req);
    if 0 < w.client.next && LostPast(w) {
      var q :| q in w.lost && w.client.next < w.lost[q];
      LossIsAnnounced(w, sid, recentOnly, limit, q);
    }
    hide ReadPage, FirstSeq, Committed, RowsValid, SessionValid, TableEvolved, RowsEvolved, Mirrors, Anchored,
         LostTracked;
    if page.historyGap && w.log.sessions[sid].pruned != w.seen.sessions[sid].pruned {
      var q :| q in w.lost && w.lost[q] == w.log.sessions[sid].pruned;
      assert w.client.next < w.lost[q];
    }
  }

  /**
    Over every run, a page reports a gap if and only if a row past the reader's
    nonzero position was pruned since its last page, or the page abandons a
    reset anchored when such rows were already pruned.
   */
  lemma GapIsReportedExactly(l: Log, events: seq<Event>, sid: string, recentOnly: bool, limit: int)
    requires Valid(l) && sid in l.sessions
    requires Delivered(Run(Fresh(l, sid, recentOnly), events, sid, recentOnly), sid, recentOnly, limit)
    ensures var w := Run(Fresh(l, sid, recentOnly), events, sid, recentOnly);
            var page := DeliveredPage(w, sid, recentOnly, limit);
            page.historyGap <==> 0 < w.client.next && (LostPast(w) || AbandonsShortReset(w, page))
  {
    var w0 := Fresh(l, sid, recentOnly);
    FreshInv(l, sid, recentOnly);
    assert MarkerTracked(w0, sid);
    hide Fresh, Inv, MarkerTracked, LostPast, AbandonsShortReset, ReadPage;
    RunKeepsMarker(w0, events, sid, recentOnly);
    hide Run;
    GapMeans(Run(w0, events, sid, recentOnly), sid, recentOnly, limit);
  }
}

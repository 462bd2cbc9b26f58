/**
  The message log itself: tables updated statement by statement inside one
  transaction per method, and the page read that fills a page step by step.
 */
module MessageLog {
  import opened Options
  import opened SqlOrder
  import opened ChatTables
  import opened ChatPage
  import ChatInvariant

  datatype Result<+T> = Ok(value: T) | Err(error: Error)

  class Conversations {
    var sessions: map<string, Session>
    var rows: map<int, Message>
    var nextSeq: int

    ghost function State(): Log
      reads this
    {
      Log(sessions, rows, nextSeq)
    }

    ghost predicate Valid()
      reads this
    {
      ChatInvariant.Valid(State())
    }

    constructor (names: set<string>)
      ensures Valid()
      ensures sessions.Keys == names && rows == map[]
    {
      sessions := map sid | sid in names :: Session(0, 0, 0);
      rows := map[];
      nextSeq := 1;
      new;
      ChatInvariant.EmptyIsValid(names);
    }

    method PublishRevision(q: int)
      requires q in rows && rows[q].session in sessions
      modifies this
      ensures State() == Publish(old(State()), q)
      ensures sessions.Keys == old(sessions.Keys)
    {
      var sid := rows[q].session;
      sessions := sessions[sid := sessions[sid].(revision := sessions[sid].revision + 1)];
      rows := rows[q := rows[q].(revision := sessions[sid].revision)];
    }

    method PruneCommittedMessages(sid: string)
      requires sid in sessions
      modifies this
      ensures State() == Prune(old(State()), sid)
    {
      hide NthNewest, MaxRevision, Committed;
      var l := Log(sessions, rows, nextSeq);
      var cutoff := NthNewest(Committed(l, sid), RETENTION_CAP);
      if cutoff.None? {
        assert Expired(l, sid) == {};
        return;
      }
      var outgrown := set q | q in Committed(l, sid) && q <= cutoff.value;
      var top := MaxRevision(rows, outgrown);
      if sessions[sid].pruned < top {
        sessions := sessions[sid := sessions[sid].(pruned := top)];
      }
      rows := rows - outgrown;
    }

    method AppendTo(sid: string, role: string, content: string, encoded: PreviewSize, committed: bool)
      returns (r: Result<int>)
      requires Valid()
      modifies this
      ensures Valid()
      ensures var o := Append(old(State()), sid, role, content, encoded, committed);
        if o.Done? then State() == o.log && r == Ok(o.number) else State() == old(State()) && r == Err(o.error)
      ensures r.Ok? <==> |content| > 0 && (role == "user" || role == "assistant") && old(sid in sessions)
    {
      hide ChatInvariant.Valid, Prune, Publish;
      AppendValid(State(), sid, role, content, encoded, committed);
      if content == "" { return Err(EmptyContent); }
      if role != "user" && role != "assistant" { return Err(UnknownRole); }
      if sid !in sessions { return Err(SessionNotFound); }
      var q := nextSeq;
      rows := rows[q := Message(sid, role, content, encoded, committed, 0)];
      nextSeq := nextSeq + 1;
      if committed {
        PublishRevision(q);
        PruneCommittedMessages(sid);
      }
      return Ok(q);
    }

    method CommitPendingReply(q: int) returns (r: Result<int>)
      requires Valid()
      modifies this
      ensures Valid()
      ensures var o := CommitPending(old(State()), q);
        if o.Done? then State() == o.log && r == Ok(q) else State() == old(State()) && r == Err(o.error)
      ensures r.Ok? <==> old(0 < q && q in rows && !rows[q].committed && rows[q].session in sessions)
    {
      hide ChatInvariant.Valid, Prune, Publish;
      ChatInvariant.WriteKeepsValid(State(), CommitReply(q));
      if q <= 0 { return Err(SequenceRequired); }
      if q !in rows || rows[q].committed { return Err(PendingNotFound); }
      var sid := rows[q].session;
      if sid !in sessions { return Err(SessionNotFound); }
      rows := rows[q := rows[q].(committed := true)];
      PublishRevision(q);
      PruneCommittedMessages(sid);
      return Ok(q);
    }

    method DeleteRow(q: int)
      requires Valid()
      modifies this
      ensures Valid()
      ensures State() == Delete(old(State()), q)
    {
      hide ChatInvariant.Valid;
      ChatInvariant.WriteKeepsValid(State(), DeleteMessage(q));
      if q <= 0 || q !in rows { return; }
      var sid := rows[q].session;
      if rows[q].committed && sid in sessions {
        var revision := sessions[sid].revision;
        sessions := sessions[sid := sessions[sid].(revision := revision + 1, reset := revision + 1)];
      }
      rows := rows - {q};
    }

    method DiscardPendingReplies()
      requires Valid()
      modifies this
      ensures Valid()
      ensures State() == DiscardPending(old(State()))
    {
      hide ChatInvariant.Valid;
      ChatInvariant.WriteKeepsValid(State(), Reopen);
      rows := map q | q in rows && rows[q].committed :: rows[q];
    }

    method ReadMessagePage(req: Request) returns (r: PageResult)
      ensures r == ReadPage(State(), req)
    {
      if req.session !in sessions { return Failed(SessionNotFound); }
      var l := Log(sessions, rows, nextSeq);
      var s := sessions[req.session];
      var visible := Committed(l, req.session);
      var page := Page([], LatestSeq(visible), FirstSeq(visible), s.revision, 0, None, false, false, false);
      var after, head;
      page, after, head := MessagePageRange(page, req, s);
      var range := Range(after, head, page.snapshot, page.reset, page.historyGap);
      var fetched := Fetched(l, req, range);
      var count, failed := ScanBoundedMessagePage(fetched, PageLimit(req.limit));
      if failed { return Failed(OverBudget); }
      page := page.(messages := fetched[..count], hasMore := count < |fetched|, nextRevision := head);
      if page.hasMore && req.afterRevision.Some? {
        page := page.(nextRevision := page.messages[|page.messages| - 1].message.revision);
      } else {
        page := page.(snapshot := None, hasMore := page.hasMore || head < page.revision);
      }
      return Shown(page);
    }
  }

  lemma AppendValid(l: Log, sid: string, role: string, content: string, encoded: PreviewSize, committed: bool)
    requires ChatInvariant.Valid(l)
    ensures Append(l, sid, role, content, encoded, committed).Done? ==>
      ChatInvariant.Valid(Append(l, sid, role, content, encoded, committed).log)
  {
    if committed {
      ChatInvariant.WriteKeepsValid(l, AppendMessage(sid, role, content, encoded));
    } else {
      StagedValid(l, sid, role, content, encoded);
    }
  }

  /** Staging keeps the invariant whatever the role. */
  lemma StagedValid(l: Log, sid: string, role: string, content: string, encoded: PreviewSize)
    requires ChatInvariant.Valid(l)
    ensures Append(l, sid, role, content, encoded, false).Done? ==>
      ChatInvariant.Valid(Append(l, sid, role, content, encoded, false).log)
  {
    var o := Append(l, sid, role, content, encoded, false);
    if o.Done? {
      forall other | other in l.sessions ensures ChatInvariant.SessionValid(o.log, other) {
        assert Committed(o.log, other) == Committed(l, other);
        assert ChatInvariant.SessionValid(l, other);
        ChatInvariant.QuietKeepsSession(l, o.log, other);
      }
    }
  }

  /** Decide between delta, continuation and reset, filling the page on the way. */
  method MessagePageRange(page: Page, req: Request, s: Session) returns (filled: Page, after: int, head: int)
    requires page.revision == s.revision && page.snapshot == None && !page.reset && !page.historyGap
    ensures var range := PageRange(req, s, page.firstSeq);
      && after == range.after && head == range.head
      && filled == page.(snapshot := range.snapshot, reset := range.reset, historyGap := range.historyGap)
  {
    filled, after, head := page, Max(0, req.afterSequence), page.revision;
    if req.afterRevision.None? { return; }
    after := Max(0, req.afterRevision.value);
    filled := filled.(historyGap := 0 < after < s.pruned);
    if req.snapshot.Some? {
      var snapshot := req.snapshot.value;
      if 0 < snapshot.revision <= head && 0 < after < snapshot.revision && s.reset <= snapshot.revision
         && snapshot.pruned == s.pruned && snapshot.firstSeq == page.firstSeq {
        filled := filled.(snapshot := Some(Snapshot(snapshot.revision, s.pruned, page.firstSeq)), historyGap := false);
        head := snapshot.revision;
        return;
      }
    }
    filled := filled.(reset := req.snapshot.Some? || after == 0 || head < after || after < s.reset
                      || filled.historyGap);
    if filled.reset {
      after := 0;
      filled := filled.(snapshot := Some(Snapshot(head, s.pruned, page.firstSeq)));
    }
  }

  /**
    Keep rows until the row limit or the byte budget: the longest prefix a page
    may hold. It fails only when not even the first row fits.
   */
  method ScanBoundedMessagePage(rows: seq<Row>, limit: nat) returns (count: nat, failed: bool)
    ensures count == Fitting(rows, limit, 0)
    ensures count <= |rows| && (0 < count ==> Holds(rows[..count], limit))
    ensures forall n | count < n <= |rows| :: !Holds(rows[..n], limit)
    ensures failed <==> rows != [] && count == 0
  {
    count, failed := 0, false;
    var used := ENVELOPE_BYTES;
    assert rows[..0] == [];
    while count < |rows|
      invariant count <= |rows| && count <= limit
      invariant used == ENVELOPE_BYTES + TotalCost(rows[..count]) && used <= PAGE_MAX_BYTES
      invariant Fitting(rows, limit, 0) == Fitting(rows, limit, count)
    {
      assert rows[..count + 1][..count] == rows[..count];
      if limit <= count || PAGE_MAX_BYTES < used + Cost(rows[count]) { break; }
      used := used + Cost(rows[count]);
      count := count + 1;
    }
    failed := rows != [] && count == 0;
    forall n | count < n <= |rows| ensures !Holds(rows[..n], limit) {
      if Holds(rows[..n], limit) {
        FittingIsLongest(rows, limit, n);
        assert false;
      }
    }
  }
}

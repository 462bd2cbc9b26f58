/**
  When each writer transaction succeeds, and the rows and counters it leaves.
 */
module ChatWrites {
  import opened Options
  import opened SqlOrder
  import opened ChatTables
  import opened ChatInvariant

  /** A row other than `q` is as it was, or was pruned from its conversation. */
  ghost predicate OnlyPrunes(l: Log, l': Log, sid: string, q: int) {
    && (forall x | x in l'.rows && x != q :: x in l.rows && l'.rows[x] == l.rows[x])
    && (forall x | x in l.rows && x != q && x !in l'.rows :: l.rows[x].session == sid && l.rows[x].committed)
  }

  /** `l'` is `l` with visible rows of one conversation removed, and at most its pruning marker moved. */
  ghost predicate Pruned(l: Log, l': Log, sid: string)
    requires sid in l.sessions
  {
    && (forall x | x in l'.rows :: x in l.rows && l'.rows[x] == l.rows[x])
    && (forall x | x in l.rows && x !in l'.rows :: l.rows[x].session == sid && l.rows[x].committed)
    && l'.nextSeq == l.nextSeq && l'.sessions.Keys == l.sessions.Keys
    && l'.sessions[sid].revision == l.sessions[sid].revision && l'.sessions[sid].reset == l.sessions[sid].reset
    && (forall other | other in l.sessions && other != sid :: l'.sessions[other] == l.sessions[other])
  }

  lemma PruneOnlyPrunes(l: Log, sid: string)
    requires sid in l.sessions
    ensures Pruned(l, Prune(l, sid), sid)
  {
    hide MaxRevision;
  }

  /** A row survives pruning exactly if fewer than the cap are newer. */
  lemma KeptExactly(rows: set<int>, kept: set<int>, cap: nat, q: int)
    requires NewestKept(rows, kept, cap) && q in rows
    ensures q in kept <==> |rows| <= cap || |Above(rows, q)| < cap
  {
    var newer := Above(rows, q);
    if |rows| > cap && q in kept {
      forall x | x in newer ensures x in kept - {q} {
        assert x in kept || x in rows - kept;
      }
      SubsetSize(newer, kept - {q});
    } else if q !in kept {
      assert q in rows - kept;
      forall y | y in kept ensures y in newer {}
      SubsetSize(kept, newer);
    }
  }

  lemma SurvivesExactly(l: Log, sid: string, q: int)
    requires sid in l.sessions && q in Committed(l, sid)
    ensures q in Prune(l, sid).rows <==> |Above(Committed(l, sid), q)| < 1000
  {
    PruneIsExact(l, sid);
    PruneOnlyPrunes(l, sid);
    var rows, kept := Committed(l, sid), Committed(Prune(l, sid), sid);
    assert q in Prune(l, sid).rows <==> q in kept;
    hide Prune, Committed;
    KeptExactly(rows, kept, RETENTION_CAP, q);
    var newer := Above(rows, q);
    assert q !in newer;
    SubsetSize(newer, rows - {q});
  }

  /** The row `q` made visible as `m`, then the conversation pruned. */
  function Exposed(l: Log, q: int, m: Message): Log
    requires m.session in l.sessions
  {
    Prune(Publish(l.(rows := l.rows[q := m]), q), m.session)
  }

  lemma PublishedMeans(l: Log, q: int, m: Message)
    requires m.session in l.sessions && m.committed && q !in Committed(l, m.session)
    ensures var sid, next := m.session, Publish(l.(rows := l.rows[q := m]), q);
            && next.nextSeq == l.nextSeq && next.rows == l.rows[q := m.(revision := l.sessions[sid].revision + 1)]
            && next.sessions == l.sessions[sid := l.sessions[sid].(revision := l.sessions[sid].revision + 1)]
            && Committed(next, sid) == Committed(l, sid) + {q}
            && Above(Committed(next, sid), q) == Above(Committed(l, sid), q)
  {
    var next := Publish(l.(rows := l.rows[q := m]), q);
    assert Committed(next, m.session) == Committed(l, m.session) + {q};
  }

  /** Row `q` became visible as `m`, under the conversation's next revision; nothing else changed but by pruning. */
  ghost predicate Reveals(l: Log, l': Log, q: int, m: Message)
    requires m.session in l.sessions
  {
    var sid, s := m.session, l.sessions[m.session];
    && OnlyPrunes(l, l', sid, q)
    && (q in l'.rows ==> l'.rows[q] == m.(revision := s.revision + 1))
    && (q in l'.rows <==> |Above(Committed(l, sid), q)| < 1000)
    && l'.sessions.Keys == l.sessions.Keys
    && (forall other | other in l.sessions && other != sid :: l'.sessions[other] == l.sessions[other])
    && l'.sessions[sid].revision == s.revision + 1 && l'.sessions[sid].reset == s.reset
  }

  lemma PrunedReveals(l: Log, next: Log, l': Log, q: int, m: Message)
    requires m.session in l.sessions && m.committed && m.session in next.sessions && Pruned(next, l', m.session)
    requires next.rows == l.rows[q := m.(revision := l.sessions[m.session].revision + 1)]
    requires next.sessions ==
               l.sessions[m.session := l.sessions[m.session].(revision := l.sessions[m.session].revision + 1)]
    requires q in l'.rows <==> |Above(Committed(l, m.session), q)| < 1000
    ensures Reveals(l, l', q, m)
  {
    hide Committed, Above;
  }

  lemma ExposedIsExact(l: Log, q: int, m: Message)
    requires m.session in l.sessions && m.committed && q !in Committed(l, m.session)
    ensures Exposed(l, q, m).nextSeq == l.nextSeq && Reveals(l, Exposed(l, q, m), q, m)
  {
    var published := Publish(l.(rows := l.rows[q := m]), q);
    PublishedMeans(l, q, m);
    PruneOnlyPrunes(published, m.session);
    SurvivesExactly(published, m.session, q);
    hide Prune, Committed, Publish, Above, Reveals;
    PrunedReveals(l, published, Exposed(l, q, m), q, m);
  }

  /** A message is accepted if and only if it has text, a known role and a conversation to go to. */
  lemma AppendSucceedsExactly(l: Log, sid: string, role: string, content: string, encoded: PreviewSize, committed: bool)
    ensures var outcome := Append(l, sid, role, content, encoded, committed);
            && (outcome.Done? <==> |content| > 0 && (role == "user" || role == "assistant") && sid in l.sessions)
            && (outcome == Rejected(EmptyContent) <==> |content| == 0)
            && (outcome == Rejected(SessionNotFound) ==> sid !in l.sessions)
            && (outcome == Rejected(UnknownRole) ==> role != "user" && role != "assistant")
  {
    hide Prune, Publish, Insert;
  }

  lemma AppendExposes(l: Log, sid: string, role: string, content: string, encoded: PreviewSize)
    requires Append(l, sid, role, content, encoded, true).Done?
    ensures sid in l.sessions
    ensures Append(l, sid, role, content, encoded, true) ==
            Done(Exposed(l.(nextSeq := l.nextSeq + 1), l.nextSeq, Message(sid, role, content, encoded, true, 0)),
                 l.nextSeq)
  {
    hide Prune, Publish;
  }

  lemma NewestIsShown(l: Log, l': Log, m: Message)
    requires RowsValid(l) && m.session in l.sessions
    requires Reveals(l.(nextSeq := l.nextSeq + 1), l', l.nextSeq, m)
    ensures l.nextSeq in l'.rows && Reveals(l, l', l.nextSeq, m)
  {
    assert Committed(l.(nextSeq := l.nextSeq + 1), m.session) == Committed(l, m.session);
    assert Above(Committed(l, m.session), l.nextSeq) == {};
    hide Committed, Above;
  }

  /**
    An accepted message is the newest row, exactly as given: visible under the
    conversation's next revision, or only staged, with nothing else touched.
   */
  lemma AppendedIsAsGiven(l: Log, sid: string, role: string, content: string, encoded: PreviewSize, committed: bool)
    requires RowsValid(l) && Append(l, sid, role, content, encoded, committed).Done?
    ensures sid in l.sessions
    ensures var Done(l', q) := Append(l, sid, role, content, encoded, committed);
            && q == l.nextSeq && l'.nextSeq == l.nextSeq + 1
            && if committed
               then q in l'.rows && Reveals(l, l', q, Message(sid, role, content, encoded, true, 0))
               else l'.sessions == l.sessions && l'.rows == l.rows[q := Message(sid, role, content, encoded, false, 0)]
  {
    if committed {
      var m := Message(sid, role, content, encoded, true, 0);
      var next := l.(nextSeq := l.nextSeq + 1);
      AppendExposes(l, sid, role, content, encoded);
      ExposedIsExact(next, l.nextSeq, m);
      NewestIsShown(l, Exposed(next, l.nextSeq, m), m);
      hide Exposed, Append, Committed, Reveals, RowsValid;
    }
  }

  /**
    Committing succeeds if and only if the sequence names a staged row of an
    existing conversation.
   */
  lemma CommitSucceedsExactly(l: Log, q: int)
    ensures var outcome := CommitPending(l, q);
            && (outcome.Done? <==> 0 < q && q in l.rows && !l.rows[q].committed && l.rows[q].session in l.sessions)
            && (outcome == Rejected(SequenceRequired) <==> q <= 0)
            && (outcome == Rejected(PendingNotFound) <==> 0 < q && (q in l.rows ==> l.rows[q].committed))
  {
    hide Prune, Publish;
  }

  /**
    The committed row is visible, otherwise as it was, under the next revision,
    exactly if fewer than a thousand newer rows are visible already.
   */
  lemma CommittedIsAsStaged(l: Log, q: int)
    requires CommitPending(l, q).Done?
    ensures l.rows[q].session in l.sessions
    ensures var Done(l', number) := CommitPending(l, q);
            number == q && l'.nextSeq == l.nextSeq && Reveals(l, l', q, l.rows[q].(committed := true))
  {
    var m := l.rows[q].(committed := true);
    assert CommitPending(l, q) == Done(Exposed(l, q, m), q) by {
      hide Prune, Publish;
    }
    ExposedIsExact(l, q, m);
    hide Exposed, CommitPending, Committed, Reveals;
  }

  /** Deleting removes that row alone; only a visible one asks its readers to reset, under a new revision. */
  lemma DeleteIsExact(l: Log, q: int)
    requires RowsValid(l)
    ensures var l' := Delete(l, q);
            && l'.nextSeq == l.nextSeq && l'.sessions.Keys == l.sessions.Keys
            && (forall x :: x in l'.rows <==> x in l.rows && x != q)
            && (forall x | x in l'.rows :: l'.rows[x] == l.rows[x])
            && (forall sid | sid in l.sessions ::
                  l'.sessions[sid] ==
                  if q in l.rows && l.rows[q].committed && l.rows[q].session == sid
                  then Session(l.sessions[sid].revision + 1, l.sessions[sid].revision + 1, l.sessions[sid].pruned)
                  else l.sessions[sid])
  {
  }

  /** Reopening removes exactly the rows that were only staged. */
  lemma ReopenIsExact(l: Log)
    ensures var l' := DiscardPending(l);
            && l'.nextSeq == l.nextSeq && l'.sessions == l.sessions
            && (forall x :: x in l'.rows <==> x in l.rows && l.rows[x].committed)
            && (forall x | x in l'.rows :: l'.rows[x] == l.rows[x])
  {
  }
}

/**
  What every writer transaction does to one conversation, and the log
  invariant that every transaction keeps.
 */
module ChatInvariant {
  import opened Options
  import opened SqlOrder
  import opened ChatTables

  ghost predicate RowsValid(l: Log) {
    && 0 < l.nextSeq
    && (forall q | q in l.rows :: 0 < q < l.nextSeq && l.rows[q].session in l.sessions)
  }

  ghost predicate SessionValid(l: Log, sid: string)
    requires sid in l.sessions
  {
    var s := l.sessions[sid];
    var rows := Committed(l, sid);
    && s.reset <= s.revision && s.pruned <= s.revision
    && (forall q | q in rows :: 1 <= l.rows[q].revision <= s.revision)
    && (forall a, b | a in rows && b in rows && l.rows[a].revision == l.rows[b].revision :: a == b)
  }

  /** Some retained row carries revision `k`. */
  ghost predicate Carried(l: Log, sid: string, k: nat) {
    exists q :: q in Committed(l, sid) && l.rows[q].revision == k
  }

  /** At most the retention cap, and every revision above `from` is a retained row's or lies under a marker. */
  ghost predicate Complete(l: Log, sid: string, from: nat)
    requires sid in l.sessions
  {
    var s := l.sessions[sid];
    && |Committed(l, sid)| <= RETENTION_CAP
    && (forall k | from < k <= s.revision && s.reset < k && s.pruned < k :: Carried(l, sid, k))
  }

  /** The invariant of the two tables. */
  ghost predicate Valid(l: Log) {
    && RowsValid(l)
    && forall sid | sid in l.sessions :: SessionValid(l, sid)
  }

  /** The conversation is untouched; only pending rows or other conversations moved. */
  ghost predicate Quiet(l: Log, l': Log, sid: string)
    requires sid in l.sessions && sid in l'.sessions
  {
    && l'.sessions[sid] == l.sessions[sid]
    && Committed(l', sid) == Committed(l, sid)
    && (forall q | q in Committed(l, sid) :: l'.rows[q] == l.rows[q])
  }

  /** The pruning marker is the highest revision ever pruned. */
  ghost predicate MarkerRaised(before: nat, after: nat, gone: set<nat>) {
    && before <= after
    && (forall r | r in gone :: r <= after)
    && (after == before || after in gone)
  }

  /** Row `q` became visible, and exactly the newest rows by sequence stayed. */
  ghost predicate Published(l: Log, l': Log, sid: string, q: int)
    requires sid in l.sessions && sid in l'.sessions
  {
    var s, s' := l.sessions[sid], l'.sessions[sid];
    var rows, rows' := Committed(l, sid), Committed(l', sid);
    && 0 < q < l'.nextSeq && q !in rows && (q in l'.rows ==> q in rows')
    && s'.revision == s.revision + 1 && s'.reset == s.reset
    && NewestKept(rows + {q}, rows', RETENTION_CAP)
    && (forall x | x in rows && x in rows' :: l'.rows[x] == l.rows[x])
    && (q in rows' ==> l'.rows[q].revision == s.revision + 1)
    && MarkerRaised(s.pruned, s'.pruned, GoneRevisions(l, rows, rows', q, s.revision + 1))
  }

  /** Revisions of the rows a publication pruned, the new row `q` included. */
  ghost function GoneRevisions(l: Log, rows: set<int>, rows': set<int>, q: int, newest: nat): set<nat>
    requires rows <= l.rows.Keys
  {
    (set x | x in rows - rows' :: l.rows[x].revision) + (if q in rows' then {} else {newest})
  }

  /** A committed row was deleted explicitly. */
  ghost predicate Deleted(l: Log, l': Log, sid: string, q: int)
    requires sid in l.sessions && sid in l'.sessions
  {
    var s := l.sessions[sid];
    && q in Committed(l, sid)
    && l'.sessions[sid] == s.(revision := s.revision + 1, reset := s.revision + 1)
    && Committed(l', sid) == Committed(l, sid) - {q}
    && (forall x | x in Committed(l', sid) :: l'.rows[x] == l.rows[x])
  }

  /** The row a transaction publishes in conversation `sid`, if it succeeds. */
  function Target(l: Log, w: Write): int {
    match w
    case CommitReply(q) => q
    case DeleteMessage(q) => q
    case _ => l.nextSeq
  }

  /** A row becomes visible on insertion, or later if it was staged. */
  ghost predicate Arrives(l: Log, q: int) {
    q == l.nextSeq || (q in l.rows && !l.rows[q].committed)
  }

  /** Every transaction, seen from one conversation, is one of three steps. */
  ghost predicate SessionStep(l: Log, w: Write, l': Log, sid: string)
    requires sid in l.sessions && sid in l'.sessions
  {
    || Quiet(l, l', sid)
    || (!w.DeleteMessage? && Arrives(l, Target(l, w)) && Published(l, l', sid, Target(l, w)))
    || (w.DeleteMessage? && Deleted(l, l', sid, w.number))
  }

  lemma PublishFrame(l: Log, q: int, sid: string)
    requires q in l.rows && l.rows[q].session in l.sessions
    ensures Committed(Publish(l, q), sid) == Committed(l, sid)
  {
  }

  lemma PruneFrame(l: Log, sid: string, other: string)
    requires sid in l.sessions
    ensures other != sid ==> Committed(Prune(l, sid), other) == Committed(l, other)
    ensures Committed(Prune(l, sid), sid) == Committed(l, sid) - Expired(l, sid)
    ensures forall x | x in Prune(l, sid).rows :: x in l.rows && Prune(l, sid).rows[x] == l.rows[x]
    ensures Prune(l, sid).nextSeq == l.nextSeq && Prune(l, sid).sessions.Keys == l.sessions.Keys
    ensures other in l.sessions && other != sid ==> Prune(l, sid).sessions[other] == l.sessions[other]
  {
    hide Expired, MaxRevision, NthNewest;
  }

  /** Pruning keeps exactly the newest rows by sequence and never more than the cap. */
  lemma PruneKeepsNewest(l: Log, sid: string)
    requires sid in l.sessions
    ensures forall x, y | x in Expired(l, sid) && y in Committed(Prune(l, sid), sid) :: x < y
    ensures |Committed(l, sid)| <= RETENTION_CAP ==> Expired(l, sid) == {}
    ensures |Committed(l, sid)| > RETENTION_CAP ==> |Committed(Prune(l, sid), sid)| == RETENTION_CAP
  {
    hide Prune, NthNewest;
    PruneFrame(l, sid, sid);
    var rows := Committed(l, sid);
    var r := NthNewest(rows, RETENTION_CAP);
    if r.Some? {
      assert rows - Expired(l, sid) == Above(rows, r.value);
    }
  }

  /** The revisions of some rows. */
  ghost function RevisionsOf(l: Log, keys: set<int>): set<nat>
    requires keys <= l.rows.Keys
  {
    set x | x in keys :: l.rows[x].revision
  }

  lemma PruneMarker(l: Log, sid: string)
    requires sid in l.sessions
    ensures var s, s' := l.sessions[sid], Prune(l, sid).sessions[sid];
      && s' == s.(pruned := s'.pruned)
      && MarkerRaised(s.pruned, s'.pruned, RevisionsOf(l, Expired(l, sid)))
  {
  }

  /**
    A prune leaves exactly the newest rows of its conversation, unchanged,
    raises its marker to the highest revision it removed, and touches nothing
    else.
   */
  lemma PruneIsExact(l: Log, sid: string)
    requires sid in l.sessions
    ensures var l' := Prune(l, sid);
      && NewestKept(Committed(l, sid), Committed(l', sid), RETENTION_CAP)
      && (forall x | x in l'.rows :: x in l.rows && l'.rows[x] == l.rows[x])
      && (forall other | other != sid :: Committed(l', other) == Committed(l, other))
      && l'.nextSeq == l.nextSeq && l'.sessions.Keys == l.sessions.Keys
      && (forall other | other in l.sessions && other != sid :: l'.sessions[other] == l.sessions[other])
      && l'.sessions[sid] == l.sessions[sid].(pruned := l'.sessions[sid].pruned)
      && MarkerRaised(l.sessions[sid].pruned, l'.sessions[sid].pruned,
                      RevisionsOf(l, Committed(l, sid) - Committed(l', sid)))
  {
    hide Prune, Expired, Committed, RevisionsOf, MarkerRaised, NewestKept;
    PruneFrame(l, sid, sid);
    PruneMarker(l, sid);
    PrunedIsNewest(l, sid);
    assert Committed(l, sid) - Committed(Prune(l, sid), sid) == Expired(l, sid);
    forall other | other != sid ensures Committed(Prune(l, sid), other) == Committed(l, other) {
      PruneFrame(l, sid, other);
    }
    forall other | other in l.sessions && other != sid
      ensures other in Prune(l, sid).sessions && Prune(l, sid).sessions[other] == l.sessions[other]
    {
      PruneFrame(l, sid, other);
    }
  }

  lemma PrunedIsNewest(l: Log, sid: string)
    requires sid in l.sessions
    ensures NewestKept(Committed(l, sid), Committed(Prune(l, sid), sid), RETENTION_CAP)
    ensures Expired(l, sid) <= Committed(l, sid)
  {
    hide Prune, NthNewest, Committed, Expired;
    PruneFrame(l, sid, sid);
    PruneKeepsNewest(l, sid);
    KeptAfterwards(Committed(l, sid), Expired(l, sid), Committed(Prune(l, sid), sid));
  }

  lemma KeptAfterwards(rows: set<int>, gone: set<int>, kept: set<int>)
    requires gone <= rows && kept == rows - gone
    requires forall x, y | x in gone && y in kept :: x < y
    requires |rows| <= RETENTION_CAP ==> gone == {}
    requires |rows| > RETENTION_CAP ==> |kept| == RETENTION_CAP
    ensures NewestKept(rows, kept, RETENTION_CAP)
  {
    assert rows - kept == gone;
  }

  lemma GoneSplit(base: Log, p: Log, rows: set<int>, rows': set<int>, q: int, gone: set<int>)
    requires rows <= base.rows.Keys && rows + {q} <= p.rows.Keys && rows' <= rows + {q} && q !in rows
    requires forall x | x in rows :: p.rows[x].revision == base.rows[x].revision
    requires gone == rows + {q} - rows'
    ensures GoneRevisions(base, rows, rows', q, p.rows[q].revision) == RevisionsOf(p, gone)
  {
    var split := GoneRevisions(base, rows, rows', q, p.rows[q].revision);
    forall r | r in RevisionsOf(p, gone) ensures r in split {
      var x :| x in gone && p.rows[x].revision == r;
      assert x == q || x in rows - rows';
    }
  }

  /** `l` is `base` with one fresh committed row `q` in conversation `sid`. */
  ghost predicate Offers(base: Log, l: Log, sid: string, q: int) {
    && sid in base.sessions && l.sessions == base.sessions
    && q in l.rows && l.rows[q].session == sid && l.rows[q].committed
    && 0 < q < l.nextSeq
    && q !in Committed(base, sid) && Committed(l, sid) == Committed(base, sid) + {q}
    && forall x | x in Committed(base, sid) :: l.rows[x] == base.rows[x]
  }

  /** `p` is `base` with `q` published in it. */
  ghost predicate Stamped(base: Log, p: Log, sid: string, q: int) {
    && sid in base.sessions && sid in p.sessions
    && p.sessions[sid] == base.sessions[sid].(revision := base.sessions[sid].revision + 1)
    && 0 < q < p.nextSeq && q !in Committed(base, sid)
    && Committed(p, sid) == Committed(base, sid) + {q}
    && p.rows[q].revision == base.sessions[sid].revision + 1
    && p.rows[q].session == sid && p.rows[q].committed
    && forall x | x in Committed(base, sid) :: p.rows[x] == base.rows[x]
  }

  lemma PublishStamps(base: Log, l: Log, sid: string, q: int)
    requires Offers(base, l, sid, q)
    ensures Stamped(base, Publish(l, q), sid, q)
  {
    PublishFrame(l, q, sid);
  }

  /** Pruning a stamped log completes a `Published` step. */
  lemma PruneStamped(base: Log, p: Log, sid: string, q: int)
    requires Stamped(base, p, sid, q)
    ensures sid in Prune(p, sid).sessions
    ensures Published(base, Prune(p, sid), sid, q)
  {
    hide Prune, Expired, RevisionsOf, GoneRevisions, MarkerRaised;
    var l' := Prune(p, sid);
    var rows, rows' := Committed(base, sid), Committed(l', sid);
    PruneFrame(p, sid, sid);
    PruneMarker(p, sid);
    assert NewestKept(rows + {q}, rows', RETENTION_CAP) by { PruneKeepsNewest(p, sid); }
    GoneSplit(base, p, rows, rows', q, Expired(p, sid));
  }

  lemma PublishElsewhere(l: Log, q: int, other: string)
    requires q in l.rows && l.rows[q].session in l.sessions && other in l.sessions && other != l.rows[q].session
    ensures Publish(l, q).sessions.Keys == l.sessions.Keys
    ensures Quiet(l, Publish(l, q), other)
  {
    PublishFrame(l, q, other);
  }

  lemma PruneElsewhere(l: Log, sid: string, other: string)
    requires sid in l.sessions && other in l.sessions && other != sid
    ensures other in Prune(l, sid).sessions
    ensures Quiet(l, Prune(l, sid), other)
  {
    hide Expired, MaxRevision;
    PruneFrame(l, sid, other);
    hide Prune;
  }

  lemma QuietTransitive(a: Log, b: Log, c: Log, sid: string)
    requires sid in a.sessions && sid in b.sessions && sid in c.sessions
    requires Quiet(a, b, sid) && Quiet(b, c, sid)
    ensures Quiet(a, c, sid)
  {
  }

  lemma AppendStep(l: Log, sid: string, role: string, content: string, encoded: PreviewSize, other: string)
    requires RowsValid(l) && other in l.sessions
    requires Append(l, sid, role, content, encoded, true).Done?
    ensures var l' := Append(l, sid, role, content, encoded, true).log;
      && other in l'.sessions
      && if other == sid then Published(l, l', sid, l.nextSeq) else Quiet(l, l', other)
  {
    hide Prune, Publish, Published;
    var inserted := Insert(l, sid, role, content, encoded, true);
    assert Committed(inserted, sid) == Committed(l, sid) + {l.nextSeq};
    PublishThenPrune(l, inserted, sid, l.nextSeq, other);
  }

  /** Publishing `q` in `l` and pruning its conversation, as any conversation sees it. */
  lemma PublishThenPrune(base: Log, l: Log, sid: string, q: int, other: string)
    requires other in base.sessions && Offers(base, l, sid, q)
    requires other != sid ==> Quiet(base, l, other)
    ensures var l' := Prune(Publish(l, q), sid);
      && other in l'.sessions
      && if other == sid then Published(base, l', sid, q) else Quiet(base, l', other)
  {
    hide Prune, Publish, Published, Committed, Quiet;
    if other == sid {
      PublishStamps(base, l, sid, q);
      PruneStamped(base, Publish(l, q), sid, q);
    } else {
      var p := Publish(l, q);
      PublishElsewhere(l, q, other);
      PruneElsewhere(p, sid, other);
      QuietTransitive(base, l, p, other);
      QuietTransitive(base, p, Prune(p, sid), other);
    }
  }

  lemma CommitStep(l: Log, q: int, other: string)
    requires RowsValid(l) && other in l.sessions
    requires CommitPending(l, q).Done?
    ensures Arrives(l, q)
    ensures var l' := CommitPending(l, q).log;
      && other in l'.sessions
      && if other == l.rows[q].session then Published(l, l', other, q) else Quiet(l, l', other)
  {
    hide Prune, Publish, Published;
    var sid := l.rows[q].session;
    var exposed := l.(rows := l.rows[q := l.rows[q].(committed := true)]);
    assert Committed(exposed, sid) == Committed(l, sid) + {q};
    PublishThenPrune(l, exposed, sid, q, other);
  }

  lemma DeleteStep(l: Log, q: int, other: string)
    requires RowsValid(l) && other in l.sessions
    ensures var l' := Delete(l, q);
      && l'.sessions.Keys == l.sessions.Keys
      && if q in Committed(l, other) then Deleted(l, l', other, q) else Quiet(l, l', other)
  {
    var l' := Delete(l, q);
    assert Committed(l', other) == Committed(l, other) - {q};
  }

  lemma StageStep(l: Log, sid: string, content: string, encoded: PreviewSize, other: string)
    requires RowsValid(l) && other in l.sessions
    requires Append(l, sid, "assistant", content, encoded, false).Done?
    ensures var l' := Append(l, sid, "assistant", content, encoded, false).log;
      other in l'.sessions && Quiet(l, l', other)
  {
    hide Prune, Publish;
    assert Committed(Insert(l, sid, "assistant", content, encoded, false), other) == Committed(l, other);
  }

  lemma ReopenStep(l: Log, other: string)
    requires other in l.sessions
    ensures DiscardPending(l).sessions == l.sessions
    ensures Quiet(l, DiscardPending(l), other)
  {
    assert Committed(DiscardPending(l), other) == Committed(l, other);
  }

  /** Every transaction, seen from any one conversation, is one of the three steps. */
  lemma EveryWriteIsAStep(l: Log, w: Write, sid: string)
    requires RowsValid(l) && sid in l.sessions
    ensures sid in Apply(l, w).sessions
    ensures SessionStep(l, w, Apply(l, w), sid)
  {
    hide Append, CommitPending, Delete, DiscardPending, Quiet, Published, Deleted;
    match w
    case AppendMessage(s, role, content, encoded) =>
      if Append(l, s, role, content, encoded, true).Done? {
        AppendStep(l, s, role, content, encoded, sid);
      } else {
        QuietSelf(l, sid);
      }
    case StageReply(s, content, encoded) =>
      if Append(l, s, "assistant", content, encoded, false).Done? {
        StageStep(l, s, content, encoded, sid);
      } else {
        QuietSelf(l, sid);
      }
    case CommitReply(q) =>
      if CommitPending(l, q).Done? {
        CommitStep(l, q, sid);
      } else {
        QuietSelf(l, sid);
      }
    case DeleteMessage(q) => DeleteStep(l, q, sid);
    case Reopen => ReopenStep(l, sid);
  }

  lemma QuietSelf(l: Log, sid: string)
    requires sid in l.sessions
    ensures Quiet(l, l, sid)
  {
  }

  // ----- The invariant over every run of writers -----

  lemma PublishedKeepsRevisions(l: Log, l': Log, sid: string, q: int)
    requires sid in l.sessions && sid in l'.sessions
    requires SessionValid(l, sid) && Published(l, l', sid, q)
    ensures var s' := l'.sessions[sid];
      && s'.reset <= s'.revision && s'.pruned <= s'.revision
      && (forall x | x in Committed(l', sid) :: 1 <= l'.rows[x].revision <= s'.revision)
      && (forall a, b | a in Committed(l', sid) && b in Committed(l', sid)
          && l'.rows[a].revision == l'.rows[b].revision :: a == b)
  {
    hide Committed;
  }

  lemma PublishedKeepsCoverage(l: Log, l': Log, sid: string, q: int, from: nat, k: nat)
    requires sid in l.sessions && sid in l'.sessions
    requires SessionValid(l, sid) && Complete(l, sid, from) && Published(l, l', sid, q)
    requires from < k && l'.sessions[sid].reset < k <= l'.sessions[sid].revision && l'.sessions[sid].pruned < k
    ensures Carried(l', sid, k)
  {
    hide Committed;
    var newest := l.sessions[sid].revision + 1;
    var rows, rows' := Committed(l, sid), Committed(l', sid);
    var gone := GoneRevisions(l, rows, rows', q, newest);
    assert forall x | x in rows - rows' :: l.rows[x].revision in gone;
    if k == newest {
      assert q in rows';
    } else {
      assert Carried(l, sid, k);
      var x :| x in rows && l.rows[x].revision == k;
      assert x in rows';
    }
  }

  lemma QuietKeepsSession(l: Log, l': Log, sid: string)
    requires sid in l.sessions && sid in l'.sessions
    requires SessionValid(l, sid) && Quiet(l, l', sid)
    ensures SessionValid(l', sid)
  {
    hide Committed;
  }

  lemma DeletedKeepsSession(l: Log, l': Log, sid: string, q: int)
    requires sid in l.sessions && sid in l'.sessions
    requires SessionValid(l, sid) && Deleted(l, l', sid, q)
    ensures SessionValid(l', sid)
  {
    hide Committed;
  }

  lemma PublishedKeepsSession(l: Log, l': Log, sid: string, q: int)
    requires sid in l.sessions && sid in l'.sessions
    requires SessionValid(l, sid) && Published(l, l', sid, q)
    ensures SessionValid(l', sid)
  {
    PublishedKeepsRevisions(l, l', sid, q);
    hide Committed, Published;
  }

  lemma StepKeepsSession(l: Log, w: Write, l': Log, sid: string)
    requires sid in l.sessions && sid in l'.sessions
    requires SessionValid(l, sid) && SessionStep(l, w, l', sid)
    ensures SessionValid(l', sid)
  {
    hide Committed, Quiet, Deleted, Published, SessionValid;
    if Quiet(l, l', sid) {
      QuietKeepsSession(l, l', sid);
    } else if w.DeleteMessage? {
      DeletedKeepsSession(l, l', sid, w.number);
    } else {
      PublishedKeepsSession(l, l', sid, Target(l, w));
    }
  }

  lemma PruneKeepsRows(l: Log, sid: string)
    requires sid in l.sessions && RowsValid(l)
    ensures RowsValid(Prune(l, sid)) && Prune(l, sid).sessions.Keys == l.sessions.Keys
  {
    PruneFrame(l, sid, sid);
    hide Prune;
  }

  lemma PublishKeepsRows(l: Log, q: int)
    requires RowsValid(l) && q in l.rows
    ensures RowsValid(Publish(l, q)) && Publish(l, q).sessions.Keys == l.sessions.Keys
  {
  }

  lemma WriteKeepsRows(l: Log, w: Write)
    requires RowsValid(l)
    ensures RowsValid(Apply(l, w)) && Apply(l, w).sessions.Keys == l.sessions.Keys
  {
    hide Prune, Publish;
    match w
    case AppendMessage(sid, role, content, encoded) =>
      if Append(l, sid, role, content, encoded, true).Done? {
        var inserted := Insert(l, sid, role, content, encoded, true);
        PublishKeepsRows(inserted, l.nextSeq);
        PruneKeepsRows(Publish(inserted, l.nextSeq), sid);
      }
    case StageReply(_, _, _) =>
    case CommitReply(q) =>
      if CommitPending(l, q).Done? {
        var exposed := l.(rows := l.rows[q := l.rows[q].(committed := true)]);
        PublishKeepsRows(exposed, q);
        PruneKeepsRows(Publish(exposed, q), l.rows[q].session);
      }
    case DeleteMessage(_) =>
    case Reopen =>
  }

  /** Every writer transaction keeps the log invariant, for every conversation. */
  lemma WriteKeepsValid(l: Log, w: Write)
    requires Valid(l)
    ensures Valid(Apply(l, w)) && Apply(l, w).sessions.Keys == l.sessions.Keys
  {
    WriteKeepsRows(l, w);
    hide Apply, RowsValid, SessionValid;
    forall sid | sid in Apply(l, w).sessions ensures SessionValid(Apply(l, w), sid) {
      EveryWriteIsAStep(l, w, sid);
      StepKeepsSession(l, w, Apply(l, w), sid);
    }
  }

  /** The invariant holds after any sequence of transactions, in any interleaving. */
  lemma {:induction false} RunKeepsValid(l: Log, ws: seq<Write>)
    requires Valid(l)
    ensures Valid(ApplyAll(l, ws)) && ApplyAll(l, ws).sessions.Keys == l.sessions.Keys
    decreases |ws|
  {
    hide Apply, Valid;
    if ws != [] {
      WriteKeepsValid(l, ws[0]);
      RunKeepsValid(Apply(l, ws[0]), ws[1..]);
    }
  }

  // ----- The cap, and what accounts for each revision -----

  /** One transaction keeps the cap and accounts for the revision it issues. */
  lemma StepKeepsComplete(l: Log, w: Write, l': Log, sid: string, from: nat)
    requires sid in l.sessions && sid in l'.sessions
    requires SessionValid(l, sid) && Complete(l, sid, from) && SessionStep(l, w, l', sid)
    ensures Complete(l', sid, from)
  {
    hide Committed, SessionValid;
    var s' := l'.sessions[sid];
    if Quiet(l, l', sid) {
      forall k: nat | from < k <= s'.revision && s'.reset < k && s'.pruned < k ensures Carried(l', sid, k) {
        assert Carried(l, sid, k);
      }
    } else if w.DeleteMessage? {
      SubsetSize(Committed(l', sid), Committed(l, sid));
    } else {
      assert |Committed(l', sid)| <= RETENTION_CAP;
      hide Published, Carried, Quiet, Deleted;
      forall k: nat | from < k <= s'.revision && s'.reset < k && s'.pruned < k ensures Carried(l', sid, k) {
        PublishedKeepsCoverage(l, l', sid, Target(l, w), from, k);
      }
    }
  }

  /** A publication restores the cap, whatever an older table held. */
  lemma PublicationRestoresTheCap(l: Log, w: Write, sid: string)
    requires RowsValid(l) && sid in l.sessions && sid in Apply(l, w).sessions
    requires Apply(l, w).sessions[sid].revision != l.sessions[sid].revision && !w.DeleteMessage?
    ensures |Committed(Apply(l, w), sid)| <= RETENTION_CAP
  {
    EveryWriteIsAStep(l, w, sid);
    hide Apply, Committed;
  }

  /** Over any run, every revision issued since its start is a retained row's or lies under a marker. */
  lemma {:induction false} RunKeepsComplete(l: Log, ws: seq<Write>, sid: string, from: nat)
    requires Valid(l) && sid in l.sessions && Complete(l, sid, from)
    ensures sid in ApplyAll(l, ws).sessions && Complete(ApplyAll(l, ws), sid, from)
    decreases |ws|
  {
    if ws != [] {
      WriteKeepsValid(l, ws[0]);
      EveryWriteIsAStep(l, ws[0], sid);
      StepKeepsComplete(l, ws[0], Apply(l, ws[0]), sid, from);
      hide Apply, Valid, Complete, SessionStep;
      RunKeepsComplete(Apply(l, ws[0]), ws[1..], sid, from);
    }
  }

  /** A log with empty conversations meets the invariant. */
  lemma EmptyIsValid(names: set<string>)
    ensures Valid(Log(map sid | sid in names :: Session(0, 0, 0), map[], 1))
  {
    var l := Log(map sid | sid in names :: Session(0, 0, 0), map[], 1);
    forall sid | sid in l.sessions ensures SessionValid(l, sid) {
      assert Committed(l, sid) == {};
    }
  }

  // ----- Tables from before revisions existed -----

  /** Tables whose new columns hold their defaults. */
  ghost predicate Legacy(l: Log) {
    && RowsValid(l)
    && (forall sid | sid in l.sessions :: l.sessions[sid] == Session(0, 0, 0))
  }

  /** Committed rows take their sequence as revision. */
  function Renumbered(l: Log): (r: Log)
    requires RowsValid(l)
    ensures r == l.(rows := r.rows) && r.rows.Keys == l.rows.Keys
    ensures forall q | q in l.rows :: r.rows[q] == if l.rows[q].committed then l.rows[q].(revision := q) else l.rows[q]
  {
    l.(rows := map q | q in l.rows :: if l.rows[q].committed then l.rows[q].(revision := q) else l.rows[q])
  }

  /** The migration: renumber, then give each conversation the highest revision of its rows. */
  function Migrated(l: Log): Log
    requires RowsValid(l)
  {
    var r := Renumbered(l);
    r.(sessions := map sid | sid in l.sessions :: l.sessions[sid].(revision := MaxRevision(r.rows, Committed(r, sid))))
  }

  lemma MigratedRows(l: Log, sid: string)
    requires RowsValid(l)
    ensures Committed(Migrated(l), sid) == Committed(l, sid) == Committed(Renumbered(l), sid)
    ensures forall q | q in Committed(l, sid) :: Migrated(l).rows[q] == l.rows[q].(revision := q)
  {
    hide Renumbered, MaxRevision;
    forall q ensures q in Committed(Migrated(l), sid) <==> q in Committed(l, sid) {}
    forall q ensures q in Committed(Renumbered(l), sid) <==> q in Committed(l, sid) {}
  }

  lemma MigratedSession(l: Log, sid: string)
    requires Legacy(l) && sid in l.sessions
    ensures sid in Migrated(l).sessions && SessionValid(Migrated(l), sid)
    ensures Migrated(l).sessions[sid] == Session(MaxRevision(Renumbered(l).rows, Committed(l, sid)), 0, 0)
  {
    MigratedRows(l, sid);
    hide Committed, MaxRevision, Renumbered;
  }

  /**
    A migrated log meets the invariant, although its revisions may be carried by
    no row and its rows exceed the cap.
   */
  lemma MigratedIsValid(l: Log)
    requires Legacy(l)
    ensures Valid(Migrated(l)) && Migrated(l).sessions.Keys == l.sessions.Keys
    ensures forall sid, q | sid in l.sessions && q in Committed(l, sid) ::
              q in Migrated(l).rows && Migrated(l).rows[q] == l.rows[q].(revision := q)
  {
    hide Committed, MaxRevision, Renumbered, SessionValid;
    forall sid | sid in l.sessions ensures SessionValid(Migrated(l), sid) {
      MigratedSession(l, sid);
    }
    forall sid, q | sid in l.sessions && q in Committed(l, sid)
      ensures q in Migrated(l).rows && Migrated(l).rows[q] == l.rows[q].(revision := q)
    {
      MigratedRows(l, sid);
    }
  }

  lemma GapAtTwo(m: Log, sid: string)
    requires sid in m.sessions && m.sessions[sid] == Session(3, 0, 0) && Committed(m, sid) == {1, 3}
    requires m.rows[1].revision == 1 && m.rows[3].revision == 3
    ensures !Carried(m, sid, 2) && !Complete(m, sid, 0) && Complete(m, sid, 3)
  {
    assert forall q | q in Committed(m, sid) :: q == 1 || q == 3;
    hide Committed;
    assert !Carried(m, sid, 2);
    hide Carried;
  }

  /** Two rows numbered 1 and 3 leave revision 2 to no row and under no marker. */
  lemma MigrationLeavesGaps(l: Log, sid: string)
    requires Legacy(l) && sid in l.sessions && Committed(l, sid) == {1, 3}
    ensures sid in Migrated(l).sessions && Migrated(l).sessions[sid] == Session(3, 0, 0)
    ensures !Carried(Migrated(l), sid, 2) && !Complete(Migrated(l), sid, 0) && Complete(Migrated(l), sid, 3)
  {
    MigratedSession(l, sid);
    MigratedRows(l, sid);
    hide Migrated, SessionValid, Complete, Carried;
    assert 1 in Committed(l, sid) && 3 in Committed(l, sid);
    hide Committed;
    var rows := Renumbered(l).rows;
    assert rows[1].revision == 1 && rows[3].revision == 3;
    hide Renumbered;
    assert MaxRevision(rows, Committed(l, sid)) == 3;
    hide MaxRevision;
    GapAtTwo(Migrated(l), sid);
  }
}

/**
  How one conversation can differ between two points of a run: which rows may
  have appeared, which may have gone, and what the reset and pruning markers
  and the first retained sequence then reveal about it.
 */
module ChatEvolution {
  import opened Options
  import opened SqlOrder
  import opened ChatTables
  import opened ChatInvariant

  /** Sequences are never reused and a committed row never changes. */
  ghost predicate TableEvolved(l: Log, l': Log) {
    && l.nextSeq <= l'.nextSeq
    && (forall q | q in l'.rows :: q in l.rows || l.nextSeq <= q)
    && (forall q | q in l.rows && l.rows[q].committed && q in l'.rows :: l'.rows[q] == l.rows[q])
  }

  /** `l'` is what conversation `sid` may look like some transactions after `l`. */
  ghost predicate Evolved(l: Log, l': Log, sid: string) {
    && sid in l.sessions && sid in l'.sessions
    && TableEvolved(l, l')
    && MarkersEvolved(l.sessions[sid], l'.sessions[sid])
    && RowsEvolved(l, l', sid)
  }

  ghost predicate MarkersEvolved(s: Session, s': Session) {
    && s.revision <= s'.revision && s.pruned <= s'.pruned
    && (s'.reset == s.reset || s.revision < s'.reset)
  }

  ghost predicate RowsEvolved(l: Log, l': Log, sid: string)
    requires sid in l.sessions && sid in l'.sessions
  {
    var s, s' := l.sessions[sid], l'.sessions[sid];
    var rows, rows' := Committed(l, sid), Committed(l', sid);
    && (forall q | q in rows' && q !in rows :: s.revision < l'.rows[q].revision)
    && (s'.reset == s.reset ==> forall x | x in rows && x !in rows' :: Outgrown(l', sid, x, l.rows[x].revision))
  }

  /** Row `x` was pruned: the tail is full, lies above it, and the marker covers it. */
  ghost predicate Outgrown(l: Log, sid: string, x: int, revision: nat)
    requires sid in l.sessions
  {
    && |Committed(l, sid)| == RETENTION_CAP
    && (forall y | y in Committed(l, sid) :: x < y)
    && revision <= l.sessions[sid].pruned
  }

  lemma EvolvedReflexive(l: Log, sid: string)
    requires sid in l.sessions
    ensures Evolved(l, l, sid)
  {
  }

  lemma PruneTable(l: Log, sid: string)
    requires sid in l.sessions && RowsValid(l)
    ensures TableEvolved(l, Prune(l, sid))
  {
    PruneFrame(l, sid, sid);
    hide Prune;
  }

  lemma WriteTable(l: Log, w: Write)
    requires RowsValid(l)
    ensures TableEvolved(l, Apply(l, w))
  {
    hide Prune;
    match w
    case AppendMessage(sid, role, content, encoded) =>
      if Append(l, sid, role, content, encoded, true).Done? {
        var p := Publish(Insert(l, sid, role, content, encoded, true), l.nextSeq);
        PublishKeepsRows(Insert(l, sid, role, content, encoded, true), l.nextSeq);
        PruneTable(p, sid);
      }
    case StageReply(_, _, _) =>
    case CommitReply(q) =>
      if CommitPending(l, q).Done? {
        var exposed := l.(rows := l.rows[q := l.rows[q].(committed := true)]);
        PublishKeepsRows(exposed, q);
        PruneTable(Publish(exposed, q), l.rows[q].session);
      }
    case DeleteMessage(_) =>
    case Reopen =>
  }

  lemma TableTransitive(a: Log, b: Log, c: Log)
    requires RowsValid(a) && TableEvolved(a, b) && TableEvolved(b, c)
    ensures TableEvolved(a, c)
  {
  }

  /** A row that becomes visible now was not visible in any earlier state. */
  lemma ArrivalIsNew(l0: Log, l: Log, sid: string, q: int)
    requires RowsValid(l0) && TableEvolved(l0, l) && Arrives(l, q)
    ensures q !in Committed(l0, sid)
  {
  }

  lemma PublishedEvolves(l0: Log, l: Log, l': Log, sid: string, q: int)
    requires Valid(l0) && Evolved(l0, l, sid) && Valid(l)
    requires sid in l'.sessions && TableEvolved(l, l') && Arrives(l, q) && Published(l, l', sid, q)
    ensures RowsEvolved(l0, l', sid)
  {
    hide Committed, RowsValid, SessionValid;
    ArrivalIsNew(l0, l, sid, q);
    var s0, s, s' := l0.sessions[sid], l.sessions[sid], l'.sessions[sid];
    var rows0, rows, rows' := Committed(l0, sid), Committed(l, sid), Committed(l', sid);
    if s'.reset == s0.reset {
      forall x | x in rows0 && x !in rows' ensures Outgrown(l', sid, x, l0.rows[x].revision) {
        if x in rows {
          SameRow(l0, l, sid, x);
          PrunedNow(l, l', sid, q, x);
        } else {
          PrunedBefore(l, l', sid, q, x, l0.rows[x].revision);
        }
      }
    }
  }

  lemma SameRow(l0: Log, l: Log, sid: string, x: int)
    requires TableEvolved(l0, l) && x in Committed(l0, sid) && x in Committed(l, sid)
    ensures l.rows[x] == l0.rows[x]
  {
  }

  lemma PrunedNow(l: Log, l': Log, sid: string, q: int, x: int)
    requires sid in l.sessions && sid in l'.sessions && Published(l, l', sid, q)
    requires x in Committed(l, sid) && x !in Committed(l', sid)
    ensures Outgrown(l', sid, x, l.rows[x].revision)
  {
    hide Committed;
    var newest := l.sessions[sid].revision + 1;
    assert x in Committed(l, sid) + {q} - Committed(l', sid);
    assert l.rows[x].revision in GoneRevisions(l, Committed(l, sid), Committed(l', sid), q, newest);
  }

  /** What a full tail lost stays below it: later commits either stay above it or are pruned at once. */
  lemma PrunedBefore(l: Log, l': Log, sid: string, q: int, x: int, revision: nat)
    requires sid in l.sessions && sid in l'.sessions && Published(l, l', sid, q)
    requires Outgrown(l, sid, x, revision)
    ensures Outgrown(l', sid, x, revision)
  {
    hide Committed;
    var rows, rows' := Committed(l, sid), Committed(l', sid);
    assert |rows + {q}| == RETENTION_CAP + 1;
    assert |rows'| == RETENTION_CAP;
    if q in rows' && q <= x {
      assert rows + {q} - rows' != {};
      var lost := SomeMember(rows + {q} - rows');
      assert false;
    }
  }

  lemma QuietEvolves(l0: Log, l: Log, l': Log, sid: string)
    requires sid in l0.sessions && sid in l.sessions && sid in l'.sessions
    requires RowsEvolved(l0, l, sid) && Quiet(l, l', sid)
    ensures RowsEvolved(l0, l', sid)
  {
    hide Committed;
  }

  lemma MarkersStep(l: Log, w: Write, l': Log, sid: string)
    requires sid in l.sessions && sid in l'.sessions && SessionStep(l, w, l', sid)
    ensures MarkersEvolved(l.sessions[sid], l'.sessions[sid])
    ensures w.DeleteMessage? && !Quiet(l, l', sid) ==> l.sessions[sid].revision < l'.sessions[sid].reset
  {
    hide Committed;
  }

  /** A deletion adds no row and moves the reset marker past everything before it. */
  lemma DeletedEvolves(l0: Log, l: Log, l': Log, sid: string, q: int)
    requires sid in l0.sessions && sid in l.sessions && sid in l'.sessions
    requires l0.sessions[sid].reset <= l0.sessions[sid].revision <= l.sessions[sid].revision
    requires RowsEvolved(l0, l, sid) && Deleted(l, l', sid, q)
    ensures RowsEvolved(l0, l', sid)
  {
    hide Committed;
  }

  /** One more transaction keeps the relation to any earlier state. */
  lemma EvolvedStep(l0: Log, l: Log, w: Write, sid: string)
    requires Valid(l0) && Valid(l) && Evolved(l0, l, sid)
    ensures Evolved(l0, Apply(l, w), sid)
  {
    var l' := Apply(l, w);
    hide Apply, RowsValid, SessionValid, TableEvolved, RowsEvolved, Published, Deleted, Quiet;
    WriteTable(l, w);
    EveryWriteIsAStep(l, w, sid);
    TableTransitive(l0, l, l');
    MarkersStep(l, w, l', sid);
    if Quiet(l, l', sid) {
      QuietEvolves(l0, l, l', sid);
    } else if w.DeleteMessage? {
      MarkersOf(l0, sid);
      DeletedEvolves(l0, l, l', sid, w.number);
    } else {
      PublishedEvolves(l0, l, l', sid, Target(l, w));
    }
  }

  lemma MarkersOf(l: Log, sid: string)
    requires Valid(l) && sid in l.sessions
    ensures l.sessions[sid].reset <= l.sessions[sid].revision && l.sessions[sid].pruned <= l.sessions[sid].revision
  {
    assert SessionValid(l, sid);
  }
}

/**
  The conversation log's two tables and the transactions that write them.

  A message receives its display sequence when it is staged and its recovery
  revision only when it is committed, so the two orders differ. Each function
  below is one whole database transaction; a rejected transaction rolls back.
 */
module ChatTables {
  import opened Options
  import opened SqlOrder

  const RETENTION_CAP: nat := 1000
  const DISPLAY_CAP: nat := 200

  const PREVIEW_BYTES: nat := 16384
  const DIAGNOSTICS_BYTES: nat := 8192
  const LABEL_BYTES: nat := 256 + 64
  const FIELD_BYTES: nat := 1024

  /**
    Size of a row's JSON preview. The query truncates every text column, and
    JSON escaping spends at most six bytes on one stored byte.
   */
  type PreviewSize = n: nat | n <= 6 * (PREVIEW_BYTES + DIAGNOSTICS_BYTES + LABEL_BYTES) + FIELD_BYTES

  datatype Message = Message(session: string, role: string, content: string, encoded: PreviewSize,
                             committed: bool, revision: nat)
  datatype Session = Session(revision: nat, reset: nat, pruned: nat)

  /** `nextSeq` is the AUTOINCREMENT counter: no sequence is ever reused. */
  datatype Log = Log(sessions: map<string, Session>, rows: map<int, Message>, nextSeq: int)

  datatype Error = EmptyContent | UnknownRole | SessionNotFound | SequenceRequired | PendingNotFound | OverBudget
  datatype Outcome = Done(log: Log, number: int) | Rejected(error: Error)

  function Committed(l: Log, sid: string): (r: set<int>)
    ensures r <= l.rows.Keys
  {
    set q | q in l.rows && l.rows[q].session == sid && l.rows[q].committed
  }

  /** `COALESCE(MAX(revision), 0)` over the given rows. */
  function MaxRevision(rows: map<int, Message>, keys: set<int>): (m: nat)
    requires keys <= rows.Keys
    ensures forall q | q in keys :: rows[q].revision <= m
    ensures m == 0 || exists q :: q in keys && rows[q].revision == m
  {
    var revisions := set q | q in keys :: rows[q].revision as int;
    if revisions == {} then
      assert forall q | q in keys :: rows[q].revision as int in revisions;
      0
    else
      var top := Greatest(revisions);
      assert forall q | q in keys :: rows[q].revision as int in revisions;
      top
  }

  /** Advance the session counter and stamp one row with it. */
  function Publish(l: Log, q: int): Log
    requires q in l.rows && l.rows[q].session in l.sessions
  {
    var sid := l.rows[q].session;
    var s := l.sessions[sid];
    var sessions := l.sessions[sid := s.(revision := s.revision + 1)];
    Log(sessions, l.rows[q := l.rows[q].(revision := s.revision + 1)], l.nextSeq)
  }

  /** Rows at or below the newest row outside the retained tail. */
  function Expired(l: Log, sid: string): (r: set<int>)
    ensures r <= Committed(l, sid)
  {
    match NthNewest(Committed(l, sid), RETENTION_CAP)
    case None => {}
    case Some(cutoff) => set q | q in Committed(l, sid) && q <= cutoff
  }

  /** Drop what outgrew the retained tail and remember its highest revision. */
  function Prune(l: Log, sid: string): Log
    requires sid in l.sessions
  {
    var gone := Expired(l, sid);
    var s := l.sessions[sid];
    var top := MaxRevision(l.rows, gone);
    var pruned := if s.pruned < top then top else s.pruned;
    Log(l.sessions[sid := s.(pruned := pruned)], l.rows - gone, l.nextSeq)
  }

  function Insert(l: Log, sid: string, role: string, content: string, encoded: PreviewSize, committed: bool): Log {
    Log(l.sessions, l.rows[l.nextSeq := Message(sid, role, content, encoded, committed, 0)], l.nextSeq + 1)
  }

  /** Append a visible message, or stage a pending reply when `committed` is false. */
  function Append(l: Log, sid: string, role: string, content: string, encoded: PreviewSize, committed: bool): Outcome {
    if content == "" then Rejected(EmptyContent)
    else if role != "user" && role != "assistant" then Rejected(UnknownRole)
    else if sid !in l.sessions then Rejected(SessionNotFound)
    else
      var q := l.nextSeq;
      var inserted := Insert(l, sid, role, content, encoded, committed);
      if !committed then Done(inserted, q)
      else Done(Prune(Publish(inserted, q), sid), q)
  }

  /** Expose a staged reply; it may be pruned by the transaction that commits it. */
  function CommitPending(l: Log, q: int): Outcome {
    if q <= 0 then Rejected(SequenceRequired)
    else if q !in l.rows || l.rows[q].committed then Rejected(PendingNotFound)
    else if l.rows[q].session !in l.sessions then Rejected(SessionNotFound)
    else
      var exposed := l.(rows := l.rows[q := l.rows[q].(committed := true)]);
      Done(Prune(Publish(exposed, q), l.rows[q].session), q)
  }

  /** Remove one message; removing a committed one asks every reader to reset. */
  function Delete(l: Log, q: int): Log {
    if q <= 0 || q !in l.rows then l
    else
      var sid := l.rows[q].session;
      var sessions :=
        if l.rows[q].committed && sid in l.sessions then
          var s := l.sessions[sid];
          l.sessions[sid := s.(revision := s.revision + 1, reset := s.revision + 1)]
        else l.sessions;
      Log(sessions, l.rows - {q}, l.nextSeq)
  }

  /** Opening the log discards replies that were never committed. */
  function DiscardPending(l: Log): Log {
    l.(rows := map q | q in l.rows && l.rows[q].committed :: l.rows[q])
  }

  datatype Write =
    | AppendMessage(session: string, role: string, content: string, encoded: PreviewSize)
    | StageReply(session: string, content: string, encoded: PreviewSize)
    | CommitReply(number: int)
    | DeleteMessage(number: int)
    | Reopen

  /** One writer transaction; a rejected one leaves the tables as they were. */
  function Apply(l: Log, w: Write): Log {
    match w
    case AppendMessage(sid, role, content, encoded) =>
      var o := Append(l, sid, role, content, encoded, true);
      if o.Done? then o.log else l
    case StageReply(sid, content, encoded) =>
      var o := Append(l, sid, "assistant", content, encoded, false);
      if o.Done? then o.log else l
    case CommitReply(q) =>
      var o := CommitPending(l, q);
      if o.Done? then o.log else l
    case DeleteMessage(q) => Delete(l, q)
    case Reopen => DiscardPending(l)
  }

  function ApplyAll(l: Log, ws: seq<Write>): Log
    decreases |ws|
  {
    if ws == [] then l else ApplyAll(Apply(l, ws[0]), ws[1..])
  }
}

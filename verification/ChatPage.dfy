/**
  One bounded read of a conversation: the stateless choice between delta,
  anchored continuation and reset, the ordered query, and the byte-bounded scan.
 */
module ChatPage {
  import opened Options
  import opened SqlOrder
  import opened ChatTables

  const PAGE_MAX_BYTES: nat := 262144
  const ENVELOPE_BYTES: nat := 4096
  const SPEECH_RESERVE_BYTES: nat := 1024

  /** A stateless continuation: where a partial reset was anchored. */
  datatype Snapshot = Snapshot(revision: int, pruned: int, firstSeq: int)

  datatype Request = Request(session: string, afterSequence: int, afterRevision: Option<int>,
                             snapshot: Option<Snapshot>, limit: int, recentOnly: bool)

  datatype Row = Row(number: int, message: Message)

  datatype Page = Page(messages: seq<Row>, latestSeq: int, firstSeq: int, revision: int, nextRevision: int,
                       snapshot: Option<Snapshot>, hasMore: bool, reset: bool, historyGap: bool)

  datatype PageResult = Shown(page: Page) | Failed(error: Error)

  /** What the request asks for, given the conversation's markers. */
  datatype Range = Range(after: int, head: int, snapshot: Option<Snapshot>, reset: bool, historyGap: bool)

  function Max(a: int, b: int): int { if a < b then b else a }

  function FirstSeq(rows: set<int>): int { if rows == {} then 0 else Least(rows) }

  function LatestSeq(rows: set<int>): int { if rows == {} then 0 else Greatest(rows) }

  /** Whether a partial reset can resume: nothing it covers was deleted or pruned. */
  predicate Resumes(snapshot: Snapshot, after: int, s: Session, firstSeq: int) {
    && 0 < snapshot.revision <= s.revision
    && 0 < after < snapshot.revision
    && s.reset <= snapshot.revision
    && snapshot.pruned == s.pruned
    && snapshot.firstSeq == firstSeq
  }

  function PageRange(req: Request, s: Session, firstSeq: int): Range {
    if req.afterRevision.None? then
      Range(Max(0, req.afterSequence), s.revision, None, false, false)
    else
      var after := Max(0, req.afterRevision.value);
      var gap := 0 < after < s.pruned;
      if req.snapshot.Some? && Resumes(req.snapshot.value, after, s, firstSeq) then
        Range(after, req.snapshot.value.revision, Some(Snapshot(req.snapshot.value.revision, s.pruned, firstSeq)),
              false, false)
      else if req.snapshot.Some? || after == 0 || s.revision < after || after < s.reset || gap then
        Range(0, s.revision, Some(Snapshot(s.revision, s.pruned, firstSeq)), true, gap)
      else
        Range(after, s.revision, None, false, gap)
  }

  /** Committed rows at or below a revision. */
  function UpTo(l: Log, sid: string, head: int): (r: set<int>)
    ensures r <= Committed(l, sid)
  {
    set q | q in Committed(l, sid) && l.rows[q].revision <= head
  }

  /** The oldest sequence of the newest display window, 0 when it is not full. */
  function WindowStart(l: Log, sid: string, head: int): int {
    match NthNewest(UpTo(l, sid, head), DISPLAY_CAP - 1)
    case None => 0
    case Some(q) => q
  }

  function DisplayStart(l: Log, req: Request, range: Range): int {
    if req.recentOnly && (range.after == 0 || range.reset || range.snapshot.Some?)
    then WindowStart(l, req.session, range.head)
    else 0
  }

  /** The rows the page query selects. */
  function Selected(l: Log, req: Request, start: int, range: Range): (r: set<int>)
    ensures r <= Committed(l, req.session)
  {
    set q | q in Committed(l, req.session) && start <= q && l.rows[q].revision <= range.head
            && range.after < (if req.afterRevision.Some? then l.rows[q].revision else q)
  }

  /** `ORDER BY revision, seq`, or `ORDER BY seq` for the legacy query. */
  predicate Before(l: Log, byRevision: bool, a: int, b: int)
    requires a in l.rows && b in l.rows
  {
    if byRevision && l.rows[a].revision != l.rows[b].revision
    then l.rows[a].revision < l.rows[b].revision
    else a < b
  }

  lemma {:induction false} FirstExists(l: Log, byRevision: bool, s: set<int>)
    requires s != {} && s <= l.rows.Keys
    ensures exists m :: m in s && forall x | x in s && x != m :: Before(l, byRevision, m, x)
  {
    var any := SomeMember(s);
    var rest := s - {any};
    if rest == {} {
      assert s == {any};
      assert any in s && forall x | x in s && x != any :: Before(l, byRevision, any, x);
    } else {
      FirstExists(l, byRevision, rest);
      var m :| m in rest && forall x | x in rest && x != m :: Before(l, byRevision, m, x);
      var g := if Before(l, byRevision, any, m) then any else m;
      assert forall x | x in s :: x == any || x in rest;
      assert g in s && forall x | x in s && x != g :: Before(l, byRevision, g, x);
    }
  }

  function First(l: Log, byRevision: bool, s: set<int>): (m: int)
    requires s != {} && s <= l.rows.Keys
    ensures m in s && forall x | x in s && x != m :: Before(l, byRevision, m, x)
  {
    FirstExists(l, byRevision, s);
    var m :| m in s && forall x | x in s && x != m :: Before(l, byRevision, m, x);
    m
  }

  /** The selected rows in query order. */
  function Ordered(l: Log, byRevision: bool, s: set<int>): (r: seq<Row>)
    requires s <= l.rows.Keys
    ensures |r| == |s|
    ensures forall i | 0 <= i < |r| :: r[i].number in s && r[i].message == l.rows[r[i].number]
    ensures forall i, j | 0 <= i < j < |r| :: Before(l, byRevision, r[i].number, r[j].number)
    decreases |s|
  {
    if s == {} then []
    else
      var m := First(l, byRevision, s);
      [Row(m, l.rows[m])] + Ordered(l, byRevision, s - {m})
  }

  lemma {:induction false} OrderedHasAll(l: Log, byRevision: bool, s: set<int>, q: int) returns (i: nat)
    requires s <= l.rows.Keys && q in s
    ensures i < |Ordered(l, byRevision, s)| && Ordered(l, byRevision, s)[i] == Row(q, l.rows[q])
    decreases |s|
  {
    var m := First(l, byRevision, s);
    if q == m {
      i := 0;
    } else {
      var j := OrderedHasAll(l, byRevision, s - {m}, q);
      i := j + 1;
    }
  }

  function Cost(row: Row): nat { row.message.encoded + SPEECH_RESERVE_BYTES + 1 }

  function TotalCost(rows: seq<Row>): nat {
    if rows == [] then 0 else TotalCost(rows[..|rows| - 1]) + Cost(rows[|rows| - 1])
  }

  /** A page may hold this row prefix. */
  predicate Holds(rows: seq<Row>, limit: nat) {
    |rows| <= limit && ENVELOPE_BYTES + TotalCost(rows) <= PAGE_MAX_BYTES
  }

  /** The number of rows the scan keeps, having kept `k` so far. */
  function Fitting(rows: seq<Row>, limit: nat, k: nat): (r: nat)
    requires k <= |rows|
    ensures k <= r <= |rows|
    ensures k < r ==> Holds(rows[..r], limit)
    ensures r < |rows| ==> !Holds(rows[..r + 1], limit)
    decreases |rows| - k
  {
    if k < |rows| && Holds(rows[..k + 1], limit) then Fitting(rows, limit, k + 1) else k
  }

  lemma {:induction false} CostGrows(rows: seq<Row>, i: nat)
    requires i <= |rows|
    ensures TotalCost(rows[..i]) <= TotalCost(rows)
    decreases |rows|
  {
    if i < |rows| {
      var init := rows[..|rows| - 1];
      assert rows[..i] == init[..i];
      CostGrows(init, i);
    } else {
      assert rows[..i] == rows;
    }
  }

  /** The scan keeps the longest prefix a page may hold. */
  lemma FittingIsLongest(rows: seq<Row>, limit: nat, n: nat)
    requires n <= |rows| && Holds(rows[..n], limit)
    ensures n <= Fitting(rows, limit, 0)
  {
    var r := Fitting(rows, limit, 0);
    if r < n {
      assert rows[..n][..r + 1] == rows[..r + 1];
      CostGrows(rows[..n], r + 1);
    }
  }

  function PageLimit(limit: int): nat {
    if limit <= 0 || DISPLAY_CAP < limit then DISPLAY_CAP else limit
  }

  /** What the query returns: at most one row more than a page may carry. */
  function Fetched(l: Log, req: Request, range: Range): (r: seq<Row>)
    ensures |r| <= PageLimit(req.limit) + 1
  {
    var all := Ordered(l, req.afterRevision.Some?, Selected(l, req, DisplayStart(l, req, range), range));
    if |all| <= PageLimit(req.limit) + 1 then all else all[..PageLimit(req.limit) + 1]
  }

  function Assemble(req: Request, s: Session, range: Range, rows: seq<Row>, count: nat, firstSeq: int,
                    latestSeq: int): Page
    requires count <= |rows| && (count < |rows| ==> 0 < count)
  {
    var more := count < |rows|;
    if more && req.afterRevision.Some? then
      Page(rows[..count], latestSeq, firstSeq, s.revision, rows[count - 1].message.revision, range.snapshot,
           true, range.reset, range.historyGap)
    else
      Page(rows[..count], latestSeq, firstSeq, s.revision, range.head, None,
           more || range.head < s.revision, range.reset, range.historyGap)
  }

  function ReadPage(l: Log, req: Request): PageResult {
    if req.session !in l.sessions then Failed(SessionNotFound)
    else
      var s := l.sessions[req.session];
      var rows := Committed(l, req.session);
      var range := PageRange(req, s, FirstSeq(rows));
      var fetched := Fetched(l, req, range);
      var count := Fitting(fetched, PageLimit(req.limit), 0);
      if fetched != [] && count == 0 then Failed(OverBudget)
      else Shown(Assemble(req, s, range, fetched, count, FirstSeq(rows), LatestSeq(rows)))
  }
}

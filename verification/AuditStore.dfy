/**
  The durable audit table: idempotent inserts, the row-limit trigger, expiry,
  and descending pages read while other writers keep appending and pruning.
 */
module AuditStore {
  import opened Options
  import opened SqlOrder

  const ROW_LIMIT: int := 10000
  const PAGE_SIZE: nat := 100
  const RETENTION_MILLIS: int := 30 * 24 * 60 * 60 * 1000

  datatype AuditEvent = AuditEvent(id: int, occurredAt: int)
  datatype Table = Table(rows: map<int, AuditEvent>, nextSeq: int)

  predicate Present(t: Table, id: int) { exists q :: q in t.rows && t.rows[q].id == id }

  /** Insert unless the identity exists; the trigger then drops what fell out of the row limit. */
  function Insert(t: Table, e: AuditEvent): Table {
    if Present(t, e.id) then t
    else
      var rows := t.rows[t.nextSeq := e];
      Table(map q | q in rows && t.nextSeq - ROW_LIMIT < q :: rows[q], t.nextSeq + 1)
  }

  function InsertAll(t: Table, batch: seq<AuditEvent>): Table
    decreases |batch|
  {
    if batch == [] then t else InsertAll(Insert(t, batch[0]), batch[1..])
  }

  function Cutoff(now: int): int { now - RETENTION_MILLIS }

  function Retained(rows: map<int, AuditEvent>, now: int): map<int, AuditEvent> {
    map q | q in rows && Cutoff(now) <= rows[q].occurredAt :: rows[q]
  }

  /** One append transaction: the batch, then everything past its retention. */
  function Append(t: Table, batch: seq<AuditEvent>, now: int): Table {
    var inserted := InsertAll(t, batch);
    inserted.(rows := Retained(inserted.rows, now))
  }

  ghost predicate Valid(t: Table) {
    && 0 < t.nextSeq
    && (forall q | q in t.rows :: 0 < q < t.nextSeq && t.nextSeq - 1 - ROW_LIMIT < q)
    && (forall a, b | a in t.rows && b in t.rows && t.rows[a].id == t.rows[b].id :: a == b)
  }

  /** `r` holds keys of `s`, newest first: the `n` greatest, or all of them. */
  ghost predicate Leads(s: set<int>, n: nat, r: seq<int>) {
    && |r| <= n && |r| <= |s|
    && (forall i | 0 <= i < |r| :: r[i] in s)
    && (forall i, j | 0 <= i < j < |r| :: r[j] < r[i])
    && (|r| < n ==> forall x | x in s :: x in r)
    && (forall x, i | x in s && x !in r && 0 <= i < |r| :: x < r[i])
  }

  lemma NewestFirst(s: set<int>, n: nat, top: int, rest: seq<int>)
    requires 0 < n && top in s && (forall x | x in s :: x <= top) && Leads(s - {top}, n - 1, rest)
    ensures Leads(s, n, [top] + rest)
  {
    var r := [top] + rest;
    assert |s - {top}| == |s| - 1;
    assert forall i | 0 < i < |r| :: r[i] == rest[i - 1];
    forall x | x in s && x !in r ensures x in s - {top} && x !in rest {
      assert x != r[0];
      assert forall y | y in rest :: y in r;
    }
  }

  /** The `n` greatest keys, newest first. */
  function Newest(s: set<int>, n: nat): (r: seq<int>)
    ensures Leads(s, n, r)
    decreases n
  {
    if n == 0 || s == {} then []
    else
      var top := Greatest(s);
      var rest := Newest(s - {top}, n - 1);
      NewestFirst(s, n, top, rest);
      [top] + rest
  }

  datatype Page = Page(events: seq<int>, newest: int, oldest: int, nextBefore: int, hasMore: bool)

  function Unexpired(t: Table, now: int): (r: set<int>)
    ensures r <= t.rows.Keys
  {
    set q | q in t.rows && Cutoff(now) <= t.rows[q].occurredAt
  }

  function Below(live: set<int>, before: int): set<int> {
    set q | q in live && (before == 0 || q < before)
  }

  /** A descending window strictly below `before`, or from the newest row when it is zero. */
  function ReadPage(t: Table, before: int, now: int): Option<Page> {
    if before < 0 then None
    else
      var live := Unexpired(t, now);
      var fetched := Newest(Below(live, before), PAGE_SIZE + 1);
      var more := PAGE_SIZE < |fetched|;
      var events := if more then fetched[..PAGE_SIZE] else fetched;
      Some(Page(events, if live == {} then 0 else Greatest(live), if live == {} then 0 else Least(live),
                if events == [] then 0 else events[|events| - 1], more))
  }

  // ----- The table over every run of writers -----

  lemma InsertValid(t: Table, e: AuditEvent)
    requires Valid(t)
    ensures Valid(Insert(t, e)) && t.nextSeq <= Insert(t, e).nextSeq
    ensures forall q | q in Insert(t, e).rows && q < t.nextSeq :: q in t.rows && Insert(t, e).rows[q] == t.rows[q]
  {
  }

  lemma {:induction false} InsertAllValid(t: Table, batch: seq<AuditEvent>)
    requires Valid(t)
    ensures Valid(InsertAll(t, batch)) && t.nextSeq <= InsertAll(t, batch).nextSeq
    ensures forall q | q in InsertAll(t, batch).rows && q < t.nextSeq ::
              q in t.rows && InsertAll(t, batch).rows[q] == t.rows[q]
    decreases |batch|
  {
    hide Insert, Valid;
    if batch != [] {
      InsertValid(t, batch[0]);
      InsertAllValid(Insert(t, batch[0]), batch[1..]);
    }
  }

  /** Every append keeps one row per identity and only adds rows above all earlier ones. */
  lemma AppendValid(t: Table, batch: seq<AuditEvent>, now: int)
    requires Valid(t)
    ensures Valid(Append(t, batch, now)) && t.nextSeq <= Append(t, batch, now).nextSeq
    ensures forall q | q in Append(t, batch, now).rows && q < t.nextSeq ::
              q in t.rows && Append(t, batch, now).rows[q] == t.rows[q]
  {
    InsertAllValid(t, batch);
    hide InsertAll;
  }

  lemma {:induction false} RangeSize(s: set<int>, lo: int, hi: int)
    requires lo <= hi && forall q | q in s :: lo < q <= hi
    ensures |s| <= hi - lo
    decreases hi - lo
  {
    if s != {} {
      var rest := s - {hi};
      var any := SomeMember(s);
      assert |s| <= |rest| + 1 by {
        if hi in s { assert s == rest + {hi}; } else { assert rest == s; }
      }
      RangeSize(rest, lo, hi - 1);
    }
  }

  /** The table never holds more rows than its limit. */
  lemma RowLimitHolds(t: Table)
    requires Valid(t)
    ensures |t.rows.Keys| <= ROW_LIMIT
  {
    RangeSize(t.rows.Keys, t.nextSeq - 1 - ROW_LIMIT, t.nextSeq - 1);
  }

  // ----- Retrying a committed batch -----

  /** Every event of the batch is in the table. */
  ghost predicate AllPresent(t: Table, batch: seq<AuditEvent>) {
    forall e | e in batch :: Present(t, e.id)
  }

  lemma {:induction false} PresentInsertsNothing(t: Table, batch: seq<AuditEvent>)
    requires AllPresent(t, batch)
    ensures InsertAll(t, batch) == t
    decreases |batch|
  {
    if batch != [] {
      assert batch[0] in batch;
      PresentInsertsNothing(t, batch[1..]);
    }
  }

  lemma {:induction false} InsertAllKeeps(t: Table, batch: seq<AuditEvent>, q: int)
    requires Valid(t) && q in t.rows && t.nextSeq + |batch| - 1 - ROW_LIMIT < q
    ensures q in InsertAll(t, batch).rows && InsertAll(t, batch).rows[q] == t.rows[q]
    decreases |batch|
  {
    if batch != [] {
      InsertValid(t, batch[0]);
      InsertAllKeeps(Insert(t, batch[0]), batch[1..], q);
    }
  }

  ghost predicate FreshBatch(t: Table, batch: seq<AuditEvent>) {
    && |batch| <= ROW_LIMIT
    && (forall i | 0 <= i < |batch| :: !Present(t, batch[i].id))
    && (forall i, j | 0 <= i < j < |batch| :: batch[i].id != batch[j].id)
  }

  lemma FreshTail(t: Table, batch: seq<AuditEvent>)
    requires batch != [] && FreshBatch(t, batch)
    ensures FreshBatch(Insert(t, batch[0]), batch[1..])
  {
    var next := Insert(t, batch[0]);
    forall i | 0 <= i < |batch[1..]| ensures !Present(next, batch[1..][i].id) {
      assert !Present(t, batch[i + 1].id);
      assert batch[0].id != batch[i + 1].id;
    }
  }

  /** Inserting at most ROW_LIMIT fresh events evicts none of them. */
  lemma {:induction false} FreshBatchStays(t: Table, batch: seq<AuditEvent>, k: nat) returns (q: int)
    requires Valid(t) && k < |batch| && FreshBatch(t, batch)
    ensures q in InsertAll(t, batch).rows && InsertAll(t, batch).rows[q] == batch[k]
    decreases |batch|
  {
    var next := Insert(t, batch[0]);
    InsertValid(t, batch[0]);
    FreshTail(t, batch);
    assert !Present(t, batch[0].id);
    assert t.nextSeq in next.rows && next.rows[t.nextSeq] == batch[0] && next.nextSeq == t.nextSeq + 1;
    if k == 0 {
      q := t.nextSeq;
      InsertAllKeeps(next, batch[1..], q);
    } else {
      q := FreshBatchStays(next, batch[1..], k - 1);
    }
  }

  lemma ExpiringTwice(rows: map<int, AuditEvent>, now: int, later: int)
    requires now <= later
    ensures Retained(Retained(rows, now), later) == Retained(rows, later)
  {
    var once := Retained(rows, now);
    var twice, direct := Retained(once, later), Retained(rows, later);
    assert Cutoff(now) <= Cutoff(later);
    forall q ensures q in twice <==> q in direct {
      assert q in once ==> once[q] == rows[q];
    }
    assert twice.Keys == direct.Keys;
  }

  /** A batch none of which had expired is in the table, so retrying it only expires more. */
  lemma RetryOnlyExpires(t: Table, batch: seq<AuditEvent>, now: int, later: int)
    requires Valid(t) && FreshBatch(t, batch) && now <= later
    requires forall e | e in batch :: Cutoff(now) <= e.occurredAt
    ensures Append(Append(t, batch, now), batch, later) == Append(t, batch, later)
  {
    var once := Append(t, batch, now);
    forall e | e in batch ensures Present(once, e.id) {
      var k :| 0 <= k < |batch| && batch[k] == e;
      var q := FreshBatchStays(t, batch, k);
      assert q in once.rows && once.rows[q].id == e.id;
    }
    PresentInsertsNothing(once, batch);
    ExpiringTwice(InsertAll(t, batch).rows, now, later);
  }

  lemma {:induction false} AbsentGrows(t: Table, batch: seq<AuditEvent>)
    ensures t.nextSeq <= InsertAll(t, batch).nextSeq
    ensures !AllPresent(t, batch) ==> t.nextSeq < InsertAll(t, batch).nextSeq
    decreases |batch|
  {
    if batch != [] {
      AbsentGrows(Insert(t, batch[0]), batch[1..]);
      if Present(t, batch[0].id) {
        assert forall e | e in batch :: e == batch[0] || e in batch[1..];
      }
    }
  }

  /** Whoever wrote in between, inserting a batch again changes nothing exactly if every event of it is still there. */
  lemma ReinsertsNothingExactly(t: Table, batch: seq<AuditEvent>)
    ensures InsertAll(t, batch) == t <==> AllPresent(t, batch)
  {
    if AllPresent(t, batch) {
      PresentInsertsNothing(t, batch);
    } else {
      AbsentGrows(t, batch);
    }
  }

  lemma {:induction false} InsertedFrom(t: Table, batch: seq<AuditEvent>, q: int)
    requires q in InsertAll(t, batch).rows
    ensures var row := InsertAll(t, batch).rows[q]; row in batch || (q in t.rows && t.rows[q] == row)
    decreases |batch|
  {
    if batch != [] {
      InsertedFrom(Insert(t, batch[0]), batch[1..], q);
    }
  }

  lemma ExpiredIsGone(t: Table, batch: seq<AuditEvent>, now: int, k: nat)
    requires FreshBatch(t, batch) && k < |batch| && batch[k].occurredAt < Cutoff(now)
    ensures !Present(Append(t, batch, now), batch[k].id)
  {
    var once := Append(t, batch, now);
    forall q | q in once.rows ensures once.rows[q].id != batch[k].id {
      InsertedFrom(t, batch, q);
      assert !Present(t, batch[k].id);
    }
  }

  /**
    Retrying a batch of new events, then or later, leaves what appending it once
    would, if and only if none of them had expired at the first attempt: an
    expired one was deleted at once, and takes another number.
   */
  lemma RetryChangesNothingExactly(t: Table, batch: seq<AuditEvent>, now: int, later: int)
    requires Valid(t) && FreshBatch(t, batch) && now <= later
    ensures Append(Append(t, batch, now), batch, later) == Append(t, batch, later) <==>
            forall e | e in batch :: Cutoff(now) <= e.occurredAt
  {
    if forall e | e in batch :: Cutoff(now) <= e.occurredAt {
      RetryOnlyExpires(t, batch, now, later);
    } else {
      var e :| e in batch && e.occurredAt < Cutoff(now);
      var k :| 0 <= k < |batch| && batch[k] == e;
      ExpiredIsGone(t, batch, now, k);
      AbsentGrows(Append(t, batch, now), batch);
    }
  }

  // ----- What is kept and shown, in days and rows -----

  lemma {:induction false} EarlierRowsKept(t: Table, batch: seq<AuditEvent>, q: int)
    requires Valid(t) && q in t.rows
    ensures q in InsertAll(t, batch).rows <==> InsertAll(t, batch).nextSeq - 10001 < q
    ensures q in InsertAll(t, batch).rows ==> InsertAll(t, batch).rows[q] == t.rows[q]
    decreases |batch|
  {
    if batch != [] {
      var next := Insert(t, batch[0]);
      InsertValid(t, batch[0]);
      if q in next.rows {
        EarlierRowsKept(next, batch[1..], q);
      } else {
        InsertAllValid(next, batch[1..]);
      }
    }
  }

  /** An earlier row stays exactly if it is among the last ten thousand numbers and at most thirty days old. */
  lemma EarlierRowStaysExactly(t: Table, batch: seq<AuditEvent>, now: int, q: int)
    requires Valid(t) && q in t.rows
    ensures q in Append(t, batch, now).rows <==>
            Append(t, batch, now).nextSeq - 10001 < q && now - 2592000000 <= t.rows[q].occurredAt
    ensures q in Append(t, batch, now).rows ==> Append(t, batch, now).rows[q] == t.rows[q]
  {
    EarlierRowsKept(t, batch, q);
    hide InsertAll, Valid;
  }

  lemma {:induction false} FreshBatchNumbered(t: Table, batch: seq<AuditEvent>, k: nat)
    requires Valid(t) && k < |batch| && FreshBatch(t, batch)
    ensures InsertAll(t, batch).nextSeq == t.nextSeq + |batch|
    ensures t.nextSeq + k in InsertAll(t, batch).rows && InsertAll(t, batch).rows[t.nextSeq + k] == batch[k]
    decreases |batch|
  {
    var next := Insert(t, batch[0]);
    InsertValid(t, batch[0]);
    FreshTail(t, batch);
    assert !Present(t, batch[0].id);
    assert t.nextSeq in next.rows && next.rows[t.nextSeq] == batch[0] && next.nextSeq == t.nextSeq + 1;
    if k > 0 {
      FreshBatchNumbered(next, batch[1..], k - 1);
    } else {
      InsertAllKeeps(next, batch[1..], t.nextSeq);
      if |batch| > 1 {
        FreshBatchNumbered(next, batch[1..], 0);
      }
    }
  }

  /**
    A new event takes the next number in turn, and is in the table afterwards
    exactly if it is at most thirty days old.
   */
  lemma NewEventIsKeptExactly(t: Table, batch: seq<AuditEvent>, now: int, k: nat)
    requires Valid(t) && k < |batch| && FreshBatch(t, batch)
    ensures t.nextSeq + k in Append(t, batch, now).rows <==> now - 2592000000 <= batch[k].occurredAt
    ensures t.nextSeq + k in Append(t, batch, now).rows ==> Append(t, batch, now).rows[t.nextSeq + k] == batch[k]
    ensures Append(t, batch, now).nextSeq == t.nextSeq + |batch|
  {
    FreshBatchNumbered(t, batch, k);
    hide InsertAll, Valid;
  }

  /** A row a reader may be shown at `now`, going back from `before`. */
  predicate Showable(t: Table, before: int, now: int, q: int) {
    q in t.rows && now - 2592000000 <= t.rows[q].occurredAt && (before == 0 || q < before)
  }

  /**
    A page shows at most a hundred rows, only ones at most thirty days old, the
    newest ones first, and says there is more exactly if it left one out.
   */
  lemma PageShowsExactly(t: Table, before: int, now: int)
    requires Valid(t)
    ensures ReadPage(t, before, now).None? <==> before < 0
    ensures 0 <= before ==>
              var page := ReadPage(t, before, now).value;
              && |page.events| <= 100 && (page.hasMore ==> |page.events| == 100)
              && (forall i | 0 <= i < |page.events| :: Showable(t, before, now, page.events[i]))
              && (forall i, j | 0 <= i < j < |page.events| :: page.events[j] < page.events[i])
              && (page.hasMore <==> exists q :: Showable(t, before, now, q) && q !in page.events)
              && (forall q, i | Showable(t, before, now, q) && q !in page.events && 0 <= i < |page.events| ::
                    q < page.events[i])
              && page.nextBefore == (if page.events == [] then 0 else page.events[|page.events| - 1])
  {
    if 0 <= before {
      var page, below := ReadPage(t, before, now).value, Below(Unexpired(t, now), before);
      forall q ensures q in below <==> Showable(t, before, now, q) {}
      hide Showable, Below, Unexpired, Valid, Newest;
      PageShape(t, before, now);
      hide ReadPage;
      CutShows(below, PAGE_SIZE, page.events, page.hasMore);
    }
  }

  lemma CutShows(s: set<int>, n: nat, events: seq<int>, more: bool)
    requires var fetched := Newest(s, n + 1);
             more == (n < |fetched|) && events == (if more then fetched[..n] else fetched)
    ensures |events| <= n && (more ==> |events| == n)
    ensures forall i | 0 <= i < |events| :: events[i] in s
    ensures forall i, j | 0 <= i < j < |events| :: events[j] < events[i]
    ensures more <==> exists q :: q in s && q !in events
    ensures forall q, i | q in s && q !in events && 0 <= i < |events| :: q < events[i]
  {
    var fetched := Newest(s, n + 1);
    hide Newest;
    if more {
      assert fetched[n] in s && forall i | 0 <= i < n :: fetched[i] != fetched[n];
      forall q, i | q in s && q !in events && 0 <= i < n ensures q < events[i] {
        if q in fetched {
          var j :| 0 <= j < |fetched| && fetched[j] == q;
          assert n <= j;
        }
      }
    }
  }

  /** A page also reports the newest and the oldest row still shown, whatever it starts from. */
  lemma PageReportsBounds(t: Table, before: int, now: int, q: int)
    requires Valid(t) && 0 <= before && Showable(t, 0, now, q)
    ensures var page := ReadPage(t, before, now).value;
            && page.oldest <= q <= page.newest && Showable(t, 0, now, page.oldest) && Showable(t, 0, now, page.newest)
  {
    assert q in Unexpired(t, now);
    hide Newest, Below;
  }

  // ----- A reader paging backwards -----

  /** What the reader has collected, and where it continues. `top` is the newest row at its first page. */
  datatype Walk = Walk(collected: seq<int>, before: int, top: int, done: bool)

  function TakePage(w: Walk, page: Page): Walk {
    Walk(w.collected + page.events, page.nextBefore, if w.collected == [] then page.newest else w.top, !page.hasMore)
  }

  datatype Event = Writer(batch: seq<AuditEvent>, now: int) | Reader(now: int)
  datatype World = World(table: Table, clock: int, walk: Walk)

  /** Time never runs backwards; a finished reader stops reading. */
  function Step(w: World, e: Event): World {
    var clock := if w.clock < e.now then e.now else w.clock;
    match e
    case Writer(batch, _) => w.(table := Append(w.table, batch, clock), clock := clock)
    case Reader(_) =>
      if w.walk.done then w.(clock := clock)
      else
        match ReadPage(w.table, w.walk.before, clock)
        case None => w.(clock := clock)
        case Some(page) => w.(walk := TakePage(w.walk, page), clock := clock)
  }

  function Run(w: World, events: seq<Event>): World
    decreases |events|
  {
    if events == [] then w else Run(Step(w, events[0]), events[1..])
  }

  ghost predicate Descending(c: seq<int>) {
    forall i, j | 0 <= i < j < |c| :: c[j] < c[i]
  }

  /** Every live row from the last collected one up to `top` was collected; all of them when done. */
  ghost predicate Covers(c: seq<int>, live: set<int>, top: int, done: bool) {
    c != [] ==> forall q | q in live && q <= top && (done || c[|c| - 1] <= q) :: q in c
  }

  /** Collected rows descend to the cursor, and nothing still readable was skipped. */
  ghost predicate WalkValid(w: World) {
    var c := w.walk.collected;
    && Descending(c)
    && (forall i | 0 <= i < |c| :: 0 < c[i] <= w.walk.top)
    && w.walk.top < w.table.nextSeq
    && (!w.walk.done ==> w.walk.before == if c == [] then 0 else c[|c| - 1])
    && Covers(c, Unexpired(w.table, w.clock), w.walk.top, w.walk.done)
  }

  lemma WriterKeepsWalk(w: World, batch: seq<AuditEvent>, now: int)
    requires Valid(w.table) && WalkValid(w)
    ensures Valid(Step(w, Writer(batch, now)).table) && WalkValid(Step(w, Writer(batch, now)))
  {
    var w' := Step(w, Writer(batch, now));
    AppendValid(w.table, batch, w'.clock);
    hide Append;
    assert forall q | q in Unexpired(w'.table, w'.clock) && q <= w.walk.top :: q in Unexpired(w.table, w.clock);
  }

  lemma UnexpiredShrinks(t: Table, earlier: int, later: int)
    requires earlier <= later
    ensures Unexpired(t, later) <= Unexpired(t, earlier)
  {
    forall q | q in Unexpired(t, later) ensures q in Unexpired(t, earlier) {
      assert Cutoff(earlier) <= Cutoff(later);
    }
  }

  /** Cutting the newest `n` out of a fetch of `n + 1` leaves no hole above the cut. */
  lemma CutLeavesNoHole(s: set<int>, n: nat, q: int)
    requires 0 < n && q in s
    ensures var fetched := Newest(s, n + 1);
      var events := if n < |fetched| then fetched[..n] else fetched;
      |fetched| <= n || events[|events| - 1] <= q ==> q in events
  {
    var fetched := Newest(s, n + 1);
    var events := if n < |fetched| then fetched[..n] else fetched;
    hide Newest;
    if q in fetched && n < |fetched| {
      var i :| 0 <= i < |fetched| && fetched[i] == q;
      assert i < n ==> events[i] == q;
    }
  }

  /** A page holds every live row between its last row and the cursor it was read with. */
  lemma PageIsContiguous(t: Table, before: int, now: int)
    requires 0 <= before
    ensures var page := ReadPage(t, before, now).value;
      var below := Below(Unexpired(t, now), before);
      && Descending(page.events)
      && (forall i | 0 <= i < |page.events| :: page.events[i] in below)
      && (forall q | q in below && (!page.hasMore || page.events[|page.events| - 1] <= q) :: q in page.events)
      && (page.events == [] ==> !page.hasMore)
  {
    hide Unexpired, Newest, Below;
    PageShape(t, before, now);
    var below := Below(Unexpired(t, now), before);
    var page := ReadPage(t, before, now).value;
    hide ReadPage;
    forall q | q in below && (!page.hasMore || page.events[|page.events| - 1] <= q) ensures q in page.events {
      CutLeavesNoHole(below, PAGE_SIZE, q);
    }
  }

  lemma PageShape(t: Table, before: int, now: int)
    requires 0 <= before
    ensures var page := ReadPage(t, before, now).value;
      var fetched := Newest(Below(Unexpired(t, now), before), PAGE_SIZE + 1);
      && page.hasMore == (PAGE_SIZE < |fetched|)
      && page.events == (if PAGE_SIZE < |fetched| then fetched[..PAGE_SIZE] else fetched)
      && page.nextBefore == (if page.events == [] then 0 else page.events[|page.events| - 1])
      && page.newest == (if Unexpired(t, now) == {} then 0 else Greatest(Unexpired(t, now)))
  {
    hide Unexpired, Newest, Below;
  }

  /** Appending a contiguous page keeps the walk without a hole. */
  lemma CoverGrows(c: seq<int>, events: seq<int>, live: set<int>, before: int, top: int, done: bool)
    requires forall q | q in live :: 0 < q
    requires before == (if c == [] then 0 else c[|c| - 1])
    requires c != [] ==> Covers(c, live, top, false) && 0 < before
    requires c == [] ==> forall q | q in live :: q <= top
    requires forall q | q in Below(live, before) && (done || (events != [] && events[|events| - 1] <= q)) :: q in events
    requires events == [] ==> done
    ensures Covers(c + events, live, top, done)
  {
    var all := c + events;
    forall q | all != [] && q in live && q <= top && (done || all[|all| - 1] <= q) ensures q in all {
      if c != [] && before <= q {
        assert q in c;
      } else {
        assert q in Below(live, before);
      }
    }
  }

  lemma DescendingJoin(c: seq<int>, events: seq<int>)
    requires Descending(c) && Descending(events)
    requires c != [] ==> forall i | 0 <= i < |events| :: events[i] < c[|c| - 1]
    ensures Descending(c + events)
  {
  }

  lemma LiveBounded(t: Table, now: int)
    requires Valid(t)
    ensures 0 < t.nextSeq && forall q | q in Unexpired(t, now) :: 0 < q < t.nextSeq
  {
  }

  lemma CoversLess(c: seq<int>, live: set<int>, less: set<int>, top: int, done: bool)
    requires Covers(c, live, top, done) && less <= live
    ensures Covers(c, less, top, done)
  {
  }

  lemma BelowMeans(live: set<int>, before: int)
    ensures forall q | q in Below(live, before) :: q in live && (before == 0 || q < before)
  {
  }

  lemma BoundedJoin(c: seq<int>, events: seq<int>, live: set<int>, before: int, top: int)
    requires forall i | 0 <= i < |c| :: 0 < c[i] <= top
    requires forall q | q in live :: 0 < q
    requires if c == [] then live != {} ==> top == Greatest(live) else before == c[|c| - 1]
    requires forall i | 0 <= i < |events| :: events[i] in live && (c != [] ==> events[i] < before)
    ensures forall i | 0 <= i < |c + events| :: 0 < (c + events)[i] <= top
  {
  }

  /** One page extends the walk without a hole. */
  lemma PageExtendsWalk(w: World, page: Page, clock: int)
    requires Valid(w.table) && WalkValid(w) && !w.walk.done && w.clock <= clock
    requires ReadPage(w.table, w.walk.before, clock) == Some(page)
    ensures WalkValid(w.(walk := TakePage(w.walk, page), clock := clock))
  {
    hide ReadPage, Unexpired, Newest, Valid, Covers, Descending, Below;
    var live := Unexpired(w.table, clock);
    var c := w.walk.collected;
    var top := if c == [] then page.newest else w.walk.top;
    UnexpiredShrinks(w.table, w.clock, clock);
    LiveBounded(w.table, clock);
    PageIsContiguous(w.table, w.walk.before, clock);
    PageShape(w.table, w.walk.before, clock);
    CoversLess(c, Unexpired(w.table, w.clock), live, w.walk.top, false);
    CoverGrows(c, page.events, live, w.walk.before, top, !page.hasMore);
    BelowMeans(live, w.walk.before);
    DescendingJoin(c, page.events);
    BoundedJoin(c, page.events, live, w.walk.before, top);
  }

  lemma ReaderKeepsWalk(w: World, now: int)
    requires Valid(w.table) && WalkValid(w)
    ensures Step(w, Reader(now)).table == w.table && WalkValid(Step(w, Reader(now)))
  {
    var clock := if w.clock < now then now else w.clock;
    UnexpiredShrinks(w.table, w.clock, clock);
    hide Unexpired;
    if !w.walk.done {
      PageExtendsWalk(w, ReadPage(w.table, w.walk.before, clock).value, clock);
    }
  }

  lemma {:induction false} RunKeepsWalk(w: World, events: seq<Event>)
    requires Valid(w.table) && WalkValid(w)
    ensures Valid(Run(w, events).table) && WalkValid(Run(w, events))
    decreases |events|
  {
    hide WalkValid, Valid, Step;
    if events != [] {
      if events[0].Writer? {
        WriterKeepsWalk(w, events[0].batch, events[0].now);
      } else {
        ReaderKeepsWalk(w, events[0].now);
      }
      RunKeepsWalk(Step(w, events[0]), events[1..]);
    }
  }

  /**
    A reader that follows `nextBefore` while others append and prune receives
    strictly descending rows, none twice, and when a page says there is no more
    it has every row of its starting snapshot that is still retained.
   */
  lemma PagingSkipsNothing(t: Table, clock: int, events: seq<Event>)
    requires Valid(t)
    ensures var w := Run(World(t, clock, Walk([], 0, 0, false)), events);
      && (forall i, j | 0 <= i < j < |w.walk.collected| :: w.walk.collected[j] < w.walk.collected[i])
      && (w.walk.done && w.walk.collected != [] ==>
            forall q | q in Unexpired(w.table, w.clock) && q <= w.walk.top :: q in w.walk.collected)
  {
    RunKeepsWalk(World(t, clock, Walk([], 0, 0, false)), events);
  }
}

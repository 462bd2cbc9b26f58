/** The audit table changed in place by append transactions, and read in pages. */
module AuditTable {
  import opened Options
  import opened SqlOrder
  import opened AuditStore

  class Store {
    var rows: map<int, AuditEvent>
    var nextSeq: int

    constructor ()
      ensures State() == Table(map[], 1)
    {
      rows, nextSeq := map[], 1;
    }

    /** The stored rows as one value. */
    function State(): Table
      reads this
    {
      Table(rows, nextSeq)
    }

    /** Insert one event unless its identity is there; the trigger drops what fell out of the row limit. */
    method AppendTx(event: AuditEvent)
      modifies this
      ensures State() == Insert(old(State()), event)
    {
      if Present(State(), event.id) {
        return;
      }
      rows := rows[nextSeq := event];
      var limit := nextSeq - ROW_LIMIT;
      rows := map q | q in rows && limit < q :: rows[q];
      nextSeq := nextSeq + 1;
    }

    /** One transaction: every event of the batch, then everything past its retention. */
    method Append(batch: seq<AuditEvent>, now: int)
      modifies this
      ensures State() == AuditStore.Append(old(State()), batch, now)
    {
      var i := 0;
      while i < |batch|
        invariant 0 <= i <= |batch|
        invariant InsertAll(State(), batch[i..]) == InsertAll(old(State()), batch)
      {
        assert batch[i..][0] == batch[i] && batch[i..][1..] == batch[i + 1..];
        AppendTx(batch[i]);
        i := i + 1;
      }
      rows := map q | q in rows && Cutoff(now) <= rows[q].occurredAt :: rows[q];
    }

    /** A bounded descending page; one row more than a page tells whether there is another. */
    method ReadBefore(before: int, now: int) returns (page: Option<Page>)
      ensures page == ReadPage(State(), before, now)
    {
      if before < 0 {
        return None;
      }
      var live := Unexpired(State(), now);
      var newest, oldest := 0, 0;
      if live != {} {
        newest, oldest := Greatest(live), Least(live);
      }
      var events := Newest(Below(live, before), PAGE_SIZE + 1);
      var hasMore := false;
      if |events| > PAGE_SIZE {
        hasMore := true;
        events := events[..PAGE_SIZE];
      }
      var nextBefore := 0;
      if |events| > 0 {
        nextBefore := events[|events| - 1];
      }
      page := Some(Page(events, newest, oldest, nextBefore, hasMore));
    }
  }
}

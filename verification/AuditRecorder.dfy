/**
  The runtime audit recorder: a bounded queue with many producers, one writer
  that batches, retries once and reports what was lost as gap records.

  Producers and the writer are interleaved steps; in particular `dropped` may
  grow between the writer's read of it and the end of the append it belongs to.
  Event `k` is the k-th event ever accepted, so acceptance order is numeric.
 */
module AuditRecorder {
  const QUEUE_LIMIT: nat := 256
  const BATCH_LIMIT: nat := 64

  /** A durable row: an accepted event, or a gap record with its own identity. */
  datatype Entry = Logged(event: nat) | Gap(id: nat, count: nat)

  datatype Pending = NoGap | Reported(id: nat, count: nat)

  /** The writer: between writes, filling a batch, or inside `write`. */
  datatype Phase =
    | Idle
    | Collecting
    | Writing(loss: nat, gap: Pending, attempt: nat, landed: bool, last: bool)
    | Stopped

  /** What became of an accepted event once the writer let go of it. */
  datatype Fate = Fate(persisted: bool, counted: bool)

  datatype State = State(
    queue: seq<nat>, closed: bool, canceled: bool,
    hand: seq<nat>, phase: Phase,
    dropped: nat, failures: nat, acknowledged: nat, pending: nat,
    stored: seq<Entry>,
    // history
    accepted: nat, rejected: nat, settled: seq<Fate>, gapIds: nat, overreported: nat)

  /** How an append transaction ends: atomically, or committed yet reported as failed. */
  datatype Outcome = Committed | Failed | Misreported

  datatype Event =
    | Record(valid: bool)
    | Close
    | Cancel
    | Receive
    | Collect
    | BeginWrite
    | GapTick
    | PruneTick(ok: bool)
    | Append(outcome: Outcome)
    | FinalWrite
    | Abandon

  /** A recorder just started on an empty table. */
  predicate Started(s: State) {
    s == State([], false, false, [], Idle, 0, 0, 0, 0, [], 0, 0, [], 0, 0)
  }

  /** Rows the batch inserts: conflicting identities are skipped. */
  function InsertNew(stored: seq<Entry>, batch: seq<Entry>): seq<Entry>
    decreases |batch|
  {
    if batch == [] then stored
    else InsertNew(if batch[0] in stored then stored else stored + [batch[0]], batch[1..])
  }

  function Rows(hand: seq<nat>): seq<Entry> { seq(|hand|, i requires 0 <= i < |hand| => Logged(hand[i])) }

  function Batch(s: State): seq<Entry>
    requires s.phase.Writing?
  {
    Rows(s.hand) + (if s.phase.gap.Reported? then [Gap(s.phase.gap.id, s.phase.gap.count)] else [])
  }

  /** Read the loss counter and prepare the batch; an empty batch writes nothing. */
  function Enter(s: State, last: bool): State {
    var loss := s.dropped;
    if s.acknowledged < loss then
      s.(phase := Writing(loss, Reported(s.gapIds, loss - s.acknowledged), 0, false, last),
         pending := |s.hand|, gapIds := s.gapIds + 1)
    else if s.hand != [] then
      s.(phase := Writing(loss, NoGap, 0, false, last), pending := |s.hand|)
    else s.(phase := if last then Stopped else Idle)
  }

  /** Let go of the batch in hand. */
  function Settle(s: State, fate: Fate): State
    requires s.phase.Writing?
  {
    s.(settled := s.settled + seq(|s.hand|, _ => fate), hand := [], pending := 0,
       phase := if s.phase.last then Stopped else Idle)
  }

  function GapCount(p: Pending): nat { if p.Reported? then p.count else 0 }

  function AppendStep(s: State, outcome: Outcome): State
    requires s.phase.Writing?
  {
    var p := s.phase;
    var stored := if outcome.Failed? then s.stored else InsertNew(s.stored, Batch(s));
    var landed := p.landed || !outcome.Failed?;
    if outcome.Committed? then
      Settle(s.(stored := stored, acknowledged := p.loss), Fate(true, false))
    else
      var failed := s.(stored := stored, failures := s.failures + 1);
      if p.attempt == 0 then failed.(phase := p.(attempt := 1, landed := landed))
      else
        Settle(failed.(dropped := s.dropped + |s.hand|,
                       overreported := s.overreported + (if landed then GapCount(p.gap) else 0)),
               Fate(landed, true))
  }

  /** One atomic step; an event that is not enabled changes nothing. */
  function Step(s: State, e: Event): State {
    match e
    case Record(valid) =>
      if !valid then s.(dropped := s.dropped + 1, rejected := s.rejected + 1)
      else if s.closed then s
      else if |s.queue| < QUEUE_LIMIT then s.(queue := s.queue + [s.accepted], accepted := s.accepted + 1)
      else s.(dropped := s.dropped + 1, rejected := s.rejected + 1)
    case Close => s.(closed := true)
    case Cancel => if s.closed then s.(canceled := true) else s
    case Receive =>
      if s.phase.Idle? && s.queue != [] then
        s.(hand := [s.queue[0]], queue := s.queue[1..], phase := Collecting)
      else s
    case Collect =>
      if s.phase.Collecting? && |s.hand| < BATCH_LIMIT && s.queue != [] then
        s.(hand := s.hand + [s.queue[0]], queue := s.queue[1..])
      else s
    case BeginWrite => if s.phase.Collecting? then Enter(s, false) else s
    case GapTick => if s.phase.Idle? && s.acknowledged < s.dropped then Enter(s, false) else s
    case PruneTick(ok) => if s.phase.Idle? && !ok then s.(failures := s.failures + 1) else s
    case Append(outcome) => if s.phase.Writing? then AppendStep(s, outcome) else s
    case FinalWrite => if s.phase.Idle? && s.closed && s.queue == [] then Enter(s, true) else s
    case Abandon =>
      if s.phase.Idle? && s.canceled then
        s.(dropped := s.dropped + |s.queue|, settled := s.settled + seq(|s.queue|, _ => Fate(false, true)),
           queue := [], phase := Stopped)
      else s
  }

  function Run(s: State, events: seq<Event>): State
    decreases |events|
  {
    if events == [] then s else Run(Step(s, events[0]), events[1..])
  }

  // ----- Accounting -----

  /** Consecutive event numbers. */
  function Range(from: nat, to: nat): seq<nat>
    requires from <= to
  {
    seq(to - from, i requires 0 <= i => from + i)
  }

  function CountedIn(settled: seq<Fate>): nat {
    if settled == [] then 0
    else CountedIn(settled[..|settled| - 1]) + (if settled[|settled| - 1].counted then 1 else 0)
  }

  /** The persisted events, in acceptance order. */
  function PersistedIn(settled: seq<Fate>): seq<nat> {
    if settled == [] then []
    else
      var n := |settled| - 1;
      PersistedIn(settled[..n]) + (if settled[n].persisted then [n] else [])
  }

  /** The events in the table, in insertion order. */
  function EventsOf(stored: seq<Entry>): seq<nat> {
    if stored == [] then []
    else
      var n := |stored| - 1;
      EventsOf(stored[..n]) + (if stored[n].Logged? then [stored[n].event] else [])
  }

  /** Loss made durable so far. */
  function GapSum(stored: seq<Entry>): nat {
    if stored == [] then 0
    else
      var n := |stored| - 1;
      GapSum(stored[..n]) + (if stored[n].Gap? then stored[n].count else 0)
  }

  /** Accepted events split, in order, into settled, in hand and queued. */
  ghost predicate Partitioned(s: State) {
    && |s.settled| + |s.hand| + |s.queue| == s.accepted
    && s.hand == Range(|s.settled|, |s.settled| + |s.hand|)
    && s.queue == Range(|s.settled| + |s.hand|, s.accepted)
  }

  ghost predicate Bounded(s: State) {
    && |s.queue| <= QUEUE_LIMIT && |s.hand| <= BATCH_LIMIT
    && (s.phase.Idle? || s.phase.Stopped? ==> s.hand == [])
    && (s.phase.Collecting? ==> s.hand != [])
    && s.pending == (if s.phase.Writing? then |s.hand| else 0)
    && (s.phase.Stopped? ==> s.closed && s.queue == [])
    && (s.canceled ==> s.closed)
    && (s.phase.Writing? && s.phase.last ==> s.closed && s.queue == [])
  }

  /** Every drop is accounted for, and so is every acknowledgement. */
  ghost predicate Counted(s: State) {
    && s.dropped == s.rejected + CountedIn(s.settled)
    && (forall k | 0 <= k < |s.settled| :: s.settled[k].persisted || s.settled[k].counted)
    && s.acknowledged <= s.dropped
    && (s.phase.Writing? ==>
          && s.acknowledged <= s.phase.loss <= s.dropped && s.phase.attempt <= 1
          && GapCount(s.phase.gap) == s.phase.loss - s.acknowledged
          && (s.phase.gap.Reported? ==> s.phase.gap.id < s.gapIds))
  }

  ghost function Landed(s: State): bool { s.phase.Writing? && s.phase.landed }

  /** What the table holds. */
  ghost predicate Durable(s: State) {
    && EventsOf(s.stored) == PersistedIn(s.settled) + (if Landed(s) then s.hand else [])
    && GapSum(s.stored) == s.acknowledged + s.overreported + (if Landed(s) then GapCount(s.phase.gap) else 0)
    && (forall i | 0 <= i < |s.stored| && s.stored[i].Gap? :: s.stored[i].id < s.gapIds)
    && (Landed(s) ==> forall b | b in Batch(s) :: b in s.stored)
    && (s.phase.Writing? && !s.phase.landed ==> forall b | b in Batch(s) :: b !in s.stored)
  }

  ghost predicate Inv(s: State) {
    Partitioned(s) && Bounded(s) && Counted(s) && Durable(s)
  }

  // ----- Lists -----

  lemma {:induction false} InsertFresh(stored: seq<Entry>, batch: seq<Entry>)
    requires forall b | b in batch :: b !in stored
    requires forall i, j | 0 <= i < j < |batch| :: batch[i] != batch[j]
    ensures InsertNew(stored, batch) == stored + batch
    decreases |batch|
  {
    if batch == [] {
      assert stored + batch == stored;
    } else {
      InsertFresh(stored + [batch[0]], batch[1..]);
      assert stored + [batch[0]] + batch[1..] == stored + batch;
    }
  }

  lemma {:induction false} InsertPresent(stored: seq<Entry>, batch: seq<Entry>)
    requires forall b | b in batch :: b in stored
    ensures InsertNew(stored, batch) == stored
    decreases |batch|
  {
    if batch != [] {
      assert batch[0] in stored;
      InsertPresent(stored, batch[1..]);
    }
  }

  lemma {:induction false} EventsOfConcat(a: seq<Entry>, b: seq<Entry>)
    ensures EventsOf(a + b) == EventsOf(a) + EventsOf(b)
    ensures GapSum(a + b) == GapSum(a) + GapSum(b)
    decreases |b|
  {
    if b == [] {
      assert a + b == a;
    } else {
      var n := |b| - 1;
      EventsOfConcat(a, b[..n]);
      assert (a + b)[..|a + b| - 1] == a + b[..n];
    }
  }

  lemma {:induction false} EventsOfRows(hand: seq<nat>)
    ensures EventsOf(Rows(hand)) == hand && GapSum(Rows(hand)) == 0
    decreases |hand|
  {
    if hand != [] {
      var n := |hand| - 1;
      EventsOfRows(hand[..n]);
      assert Rows(hand)[..n] == Rows(hand[..n]);
      assert hand == hand[..n] + [hand[n]];
    }
  }

  lemma {:induction false} LoggedMeansEvent(stored: seq<Entry>, e: nat)
    requires Logged(e) in stored
    ensures e in EventsOf(stored)
    decreases |stored|
  {
    var n := |stored| - 1;
    if stored[n] != Logged(e) {
      assert stored == stored[..n] + [stored[n]];
      LoggedMeansEvent(stored[..n], e);
    }
  }

  /** Persisted events keep acceptance order. */
  lemma {:induction false} PersistedIncreasing(settled: seq<Fate>)
    ensures forall i | 0 <= i < |PersistedIn(settled)| :: PersistedIn(settled)[i] < |settled|
    ensures forall i, j | 0 <= i < j < |PersistedIn(settled)| :: PersistedIn(settled)[i] < PersistedIn(settled)[j]
    decreases |settled|
  {
    if settled != [] {
      PersistedIncreasing(settled[..|settled| - 1]);
    }
  }

  lemma RangeGrows(from: nat, to: nat)
    requires from <= to
    ensures Range(from, to + 1) == Range(from, to) + [to]
  {
  }

  /** Settling a batch with one fate. */
  lemma {:induction false} SettleMany(settled: seq<Fate>, n: nat, fate: Fate)
    ensures var all := settled + seq(n, _ => fate);
      && CountedIn(all) == CountedIn(settled) + (if fate.counted then n else 0)
      && PersistedIn(all) == PersistedIn(settled) + (if fate.persisted then Range(|settled|, |settled| + n) else [])
    decreases n
  {
    var all := settled + seq(n, _ => fate);
    if n == 0 {
      assert all == settled;
    } else {
      SettleMany(settled, n - 1, fate);
      assert all[..|all| - 1] == settled + seq(n - 1, _ => fate);
      RangeGrows(|settled|, |settled| + n - 1);
    }
  }

  // ----- The invariant over every interleaving -----

  lemma StartInv(s: State)
    requires Started(s)
    ensures Inv(s) && Exact(s)
  {
    hide Started, Partitioned, Bounded, Counted, Durable, Exact;
    NothingAccepted(s);
    NothingCounted(s);
    NothingDurable(s);
    NothingSettled(s);
  }

  lemma NothingSettled(s: State)
    requires Started(s)
    ensures Exact(s)
  {
  }

  lemma NothingAccepted(s: State)
    requires Started(s)
    ensures Partitioned(s) && Bounded(s)
  {
  }

  lemma NothingCounted(s: State)
    requires Started(s)
    ensures Counted(s)
  {
    NothingYet(s.stored, s.settled);
    hide EventsOf, PersistedIn, GapSum, CountedIn;
  }

  lemma NothingDurable(s: State)
    requires Started(s)
    ensures Durable(s)
  {
    NothingYet(s.stored, s.settled);
    hide EventsOf, PersistedIn, GapSum, CountedIn, Batch;
  }

  lemma NothingYet(stored: seq<Entry>, settled: seq<Fate>)
    requires |stored| == 0 && |settled| == 0
    ensures EventsOf(stored) == [] && GapSum(stored) == 0
    ensures PersistedIn(settled) == [] && CountedIn(settled) == 0
  {
  }

  lemma BatchParts(s: State)
    requires s.phase.Writing? && Partitioned(s)
    ensures EventsOf(Batch(s)) == s.hand && GapSum(Batch(s)) == GapCount(s.phase.gap)
    ensures forall i, j | 0 <= i < j < |Batch(s)| :: Batch(s)[i] != Batch(s)[j]
  {
    EventsOfRows(s.hand);
    if s.phase.gap.Reported? {
      var gap := [Gap(s.phase.gap.id, s.phase.gap.count)];
      EventsOfConcat(Rows(s.hand), gap);
      assert EventsOf(gap[..0]) == [] && gap[..0] == [];
    } else {
      assert Batch(s) == Rows(s.hand);
    }
  }

  /** Events in hand and a fresh gap record are new to the table. */
  lemma HandIsNew(s: State, b: Entry)
    requires Partitioned(s) && Durable(s) && !Landed(s)
    requires b in Rows(s.hand) || (b.Gap? && s.gapIds <= b.id)
    ensures b !in s.stored
  {
    PersistedIncreasing(s.settled);
    if b in s.stored && b.Logged? {
      LoggedMeansEvent(s.stored, b.event);
      assert false;
    }
  }

  lemma EnterKeepsInv(s: State, last: bool)
    requires Inv(s) && !s.phase.Writing? && !s.phase.Stopped? && (last ==> s.closed && s.queue == [] && s.hand == [])
    ensures Inv(Enter(s, last))
  {
    var s' := Enter(s, last);
    hide CountedIn, PersistedIn, EventsOf, GapSum;
    if s'.phase.Writing? {
      forall b | b in Batch(s') ensures b !in s'.stored {
        HandIsNew(s, b);
      }
    }
  }

  /** After a commit the table holds the batch exactly once. */
  lemma InsertKeepsDurable(s: State)
    requires Inv(s) && s.phase.Writing?
    ensures var stored := InsertNew(s.stored, Batch(s));
      && EventsOf(stored) == PersistedIn(s.settled) + s.hand
      && GapSum(stored) == s.acknowledged + s.overreported + GapCount(s.phase.gap)
      && (forall b | b in Batch(s) :: b in stored)
      && (forall i | 0 <= i < |stored| && stored[i].Gap? :: stored[i].id < s.gapIds)
  {
    BatchParts(s);
    GapIdsBounded(s);
    hide Batch, InsertNew, EventsOf, GapSum, PersistedIn, CountedIn, Partitioned, Bounded, Counted;
    if s.phase.landed {
      InsertPresent(s.stored, Batch(s));
      assert InsertNew(s.stored, Batch(s)) == s.stored;
    } else {
      InsertFresh(s.stored, Batch(s));
      EventsOfConcat(s.stored, Batch(s));
      ConcatGaps(s.stored, Batch(s), s.gapIds);
      assert PersistedIn(s.settled) + [] == PersistedIn(s.settled);
    }
  }

  lemma ConcatGaps(stored: seq<Entry>, batch: seq<Entry>, bound: nat)
    requires forall i | 0 <= i < |stored| && stored[i].Gap? :: stored[i].id < bound
    requires forall b | b in batch && b.Gap? :: b.id < bound
    ensures forall i | 0 <= i < |stored + batch| && (stored + batch)[i].Gap? :: (stored + batch)[i].id < bound
  {
  }

  lemma GapIdsBounded(s: State)
    requires Inv(s) && s.phase.Writing?
    ensures forall b | b in Batch(s) && b.Gap? :: b.id < s.gapIds
  {
  }

  lemma SettleKeepsLists(s: State, fate: Fate)
    requires Partitioned(s)
    ensures var settled := s.settled + seq(|s.hand|, _ => fate);
      && CountedIn(settled) == CountedIn(s.settled) + (if fate.counted then |s.hand| else 0)
      && PersistedIn(settled) == PersistedIn(s.settled) + (if fate.persisted then s.hand else [])
  {
    SettleMany(s.settled, |s.hand|, fate);
  }

  /** A batch that was settled leaves nothing in hand. */
  lemma SettledParts(s: State, t: State, fate: Fate)
    requires Partitioned(s) && Bounded(s) && s.phase.Writing?
    requires t.phase == s.phase && t.hand == s.hand && t.queue == s.queue && t.settled == s.settled
    requires t.accepted == s.accepted && t.closed == s.closed && t.canceled == s.canceled
    ensures Partitioned(Settle(t, fate)) && Bounded(Settle(t, fate))
  {
  }

  lemma CommitKeepsInv(s: State)
    requires Inv(s) && s.phase.Writing?
    ensures Inv(AppendStep(s, Committed))
  {
    hide InsertNew, CountedIn, PersistedIn, EventsOf, GapSum, Batch, Partitioned, Bounded;
    var s' := AppendStep(s, Committed);
    InsertKeepsDurable(s);
    SettleKeepsLists(s, Fate(true, false));
    SettledParts(s, s.(stored := s'.stored, acknowledged := s.phase.loss), Fate(true, false));
  }

  lemma RetryKeepsInv(s: State, outcome: Outcome)
    requires Inv(s) && s.phase.Writing? && !outcome.Committed? && s.phase.attempt == 0
    ensures Inv(AppendStep(s, outcome))
  {
    hide InsertNew, CountedIn, PersistedIn, EventsOf, GapSum, Batch;
    if !outcome.Failed? {
      InsertKeepsDurable(s);
    }
    SameBatch(s, AppendStep(s, outcome));
  }

  lemma GiveUpKeepsInv(s: State, outcome: Outcome)
    requires Inv(s) && s.phase.Writing? && !outcome.Committed? && s.phase.attempt != 0
    ensures Inv(AppendStep(s, outcome))
  {
    hide InsertNew, CountedIn, PersistedIn, EventsOf, GapSum, Batch, Partitioned, Bounded;
    if !outcome.Failed? {
      InsertKeepsDurable(s);
    }
    var s' := AppendStep(s, outcome);
    var fate := Fate(s.phase.landed || !outcome.Failed?, true);
    SettleKeepsLists(s, fate);
    SettledParts(s,
                 s.(stored := s'.stored, failures := s'.failures, dropped := s'.dropped,
                    overreported := s'.overreported), fate);
  }

  lemma AppendKeepsInv(s: State, outcome: Outcome)
    requires Inv(s) && s.phase.Writing?
    ensures Inv(AppendStep(s, outcome))
  {
    hide AppendStep, Inv;
    if outcome.Committed? {
      CommitKeepsInv(s);
    } else if s.phase.attempt == 0 {
      RetryKeepsInv(s, outcome);
    } else {
      GiveUpKeepsInv(s, outcome);
    }
  }

  lemma SameBatch(s: State, s': State)
    requires s.phase.Writing? && s'.phase.Writing? && s'.hand == s.hand && s'.phase.gap == s.phase.gap
    ensures Batch(s') == Batch(s)
  {
  }

  lemma AbandonKeepsInv(s: State)
    requires Inv(s)
    ensures Inv(Step(s, Abandon))
  {
    hide CountedIn, PersistedIn, EventsOf, GapSum;
    SettleMany(s.settled, |s.queue|, Fate(false, true));
  }

  lemma RecordKeepsInv(s: State, valid: bool)
    requires Inv(s)
    ensures Inv(Step(s, Record(valid)))
  {
    hide CountedIn, PersistedIn, EventsOf, GapSum;
    var s' := Step(s, Record(valid));
    if s.phase.Writing? {
      SameBatch(s, s');
      hide Batch;
    }
  }

  lemma TakeKeepsInv(s: State, e: Event)
    requires Inv(s) && (e.Receive? || e.Collect?)
    ensures Inv(Step(s, e))
  {
    hide CountedIn, PersistedIn, EventsOf, GapSum, Batch;
    var s' := Step(s, e);
    if s'.accepted == s.accepted && s.queue != [] {
      assert s.queue[0] == |s.settled| + |s.hand|;
    }
  }

  /** Every step of every producer and of the writer keeps the accounting. */
  lemma StepKeepsInv(s: State, e: Event)
    requires Inv(s)
    ensures Inv(Step(s, e))
  {
    hide CountedIn, PersistedIn, EventsOf, GapSum, Enter, AppendStep;
    match e
    case Record(valid) => RecordKeepsInv(s, valid);
    case Close => ControlKeepsInv(s, e);
    case Cancel => ControlKeepsInv(s, e);
    case Receive => TakeKeepsInv(s, e);
    case Collect => TakeKeepsInv(s, e);
    case BeginWrite => if s.phase.Collecting? { EnterKeepsInv(s, false); }
    case GapTick => if s.phase.Idle? { EnterKeepsInv(s, false); }
    case PruneTick(ok) => ControlKeepsInv(s, e);
    case Append(outcome) => if s.phase.Writing? { AppendKeepsInv(s, outcome); }
    case FinalWrite => if s.phase.Idle? && s.closed && s.queue == [] { EnterKeepsInv(s, true); }
    case Abandon => AbandonKeepsInv(s);
  }

  lemma ControlKeepsInv(s: State, e: Event)
    requires Inv(s) && (e.Close? || e.Cancel? || e.PruneTick?)
    ensures Inv(Step(s, e))
  {
    hide CountedIn, PersistedIn, EventsOf, GapSum;
    if s.phase.Writing? {
      SameBatch(s, Step(s, e));
      hide Batch;
    }
  }

  lemma {:induction false} RunKeepsInv(s: State, events: seq<Event>)
    requires Inv(s)
    ensures Inv(Run(s, events))
    decreases |events|
  {
    hide Step, Inv;
    if events != [] {
      StepKeepsInv(s, events[0]);
      RunKeepsInv(Step(s, events[0]), events[1..]);
    }
  }

  // ----- Main results -----

  lemma {:induction false} UnpersistedAreCounted(settled: seq<Fate>)
    requires forall k | 0 <= k < |settled| :: settled[k].persisted || settled[k].counted
    ensures |PersistedIn(settled)| <= |settled| <= |PersistedIn(settled)| + CountedIn(settled)
    decreases |settled|
  {
    if settled != [] {
      UnpersistedAreCounted(settled[..|settled| - 1]);
    }
  }

  /**
    An accepted event is settled, in hand or queued, and once settled it is in
    the table or counted as dropped; the table keeps acceptance order; the
    durable gap counts cover the acknowledged loss, which never exceeds
    `dropped`; and occupancy stays within the reported limit.
   */
  ghost predicate Conserved(s: State) {
    && |s.settled| + |s.hand| + |s.queue| == s.accepted
    && (forall k | 0 <= k < |s.settled| :: s.settled[k].counted || k in EventsOf(s.stored))
    && s.dropped == s.rejected + CountedIn(s.settled)
    && Increasing(EventsOf(s.stored), s.accepted)
    && s.acknowledged <= GapSum(s.stored) && s.acknowledged <= s.dropped
    && |s.settled| - |PersistedIn(s.settled)| + s.rejected <= s.dropped
    && |s.queue| + s.pending <= QUEUE_LIMIT + BATCH_LIMIT
  }

  ghost predicate Increasing(events: seq<nat>, bound: nat) {
    && (forall i | 0 <= i < |events| :: events[i] < bound)
    && (forall i, j | 0 <= i < j < |events| :: events[i] < events[j])
  }

  lemma StoredIncreasing(s: State)
    requires Inv(s)
    ensures Increasing(EventsOf(s.stored), s.accepted)
  {
    PersistedIncreasing(s.settled);
    hide PersistedIn, EventsOf, GapSum, CountedIn;
  }

  lemma InvMeansConserved(s: State)
    requires Inv(s)
    ensures Conserved(s)
  {
    hide PersistedIn, EventsOf, GapSum, CountedIn, Batch, Increasing;
    StoredIncreasing(s);
    UnpersistedAreCounted(s.settled);
    forall k | 0 <= k < |s.settled| ensures s.settled[k].counted || k in EventsOf(s.stored) {
      PersistedHas(s.settled, k);
    }
  }

  /** Every interleaving of producers, ticks, failures and shutdown conserves events and losses. */
  lemma Conservation(s: State, events: seq<Event>)
    requires Started(s)
    ensures Conserved(Run(s, events))
  {
    hide Run, Inv, Conserved, Started;
    StartInv(s);
    RunKeepsInv(s, events);
    InvMeansConserved(Run(s, events));
  }

  lemma {:induction false} PersistedHas(settled: seq<Fate>, k: nat)
    requires k < |settled|
    ensures settled[k].persisted <==> k in PersistedIn(settled)
    decreases |settled|
  {
    var n := |settled| - 1;
    PersistedIncreasing(settled[..n]);
    if k < n {
      PersistedHas(settled[..n], k);
    }
  }

  /** Transactions are all-or-nothing: no commit is ever reported as a failure. */
  ghost predicate Atomic(events: seq<Event>) {
    Append(Misreported) !in events
  }

  /** Nothing is both kept and counted, and no gap was reported twice. */
  ghost predicate Exact(s: State) {
    && (forall k | 0 <= k < |s.settled| :: s.settled[k].persisted != s.settled[k].counted)
    && !Landed(s) && s.overreported == 0
  }

  lemma StepKeepsExact(s: State, e: Event)
    requires Exact(s) && e != Append(Misreported)
    ensures Exact(Step(s, e))
  {
    hide InsertNew, Batch;
  }

  lemma {:induction false} RunKeepsExact(s: State, events: seq<Event>)
    requires Exact(s) && Atomic(events)
    ensures Exact(Run(s, events))
    decreases |events|
  {
    hide Step, Exact;
    if events != [] {
      assert events[0] in events;
      StepKeepsExact(s, events[0]);
      RunKeepsExact(Step(s, events[0]), events[1..]);
    }
  }

  /**
    The books balance exactly: each settled event is either in the table or
    counted, and the durable gap counts equal the acknowledged loss.
   */
  ghost predicate Balanced(s: State) {
    && EventsOf(s.stored) == PersistedIn(s.settled)
    && (forall k | 0 <= k < |s.settled| :: s.settled[k].counted <==> k !in EventsOf(s.stored))
    && GapSum(s.stored) == s.acknowledged <= s.dropped
  }

  lemma ExactMeansBalanced(s: State)
    requires Inv(s) && Exact(s)
    ensures Balanced(s)
  {
    hide PersistedIn, EventsOf, GapSum, CountedIn, Batch, Partitioned, Bounded;
    forall k | 0 <= k < |s.settled| ensures s.settled[k].counted <==> k !in PersistedIn(s.settled) {
      PersistedHas(s.settled, k);
    }
  }

  /** With atomic appends the books balance in every interleaving, although drops race the appends. */
  lemma ConservationIsExact(s: State, events: seq<Event>)
    requires Started(s) && Atomic(events)
    ensures Balanced(Run(s, events))
  {
    hide Run, Inv, Exact, Balanced, Started;
    StartInv(s);
    RunKeepsInv(s, events);
    RunKeepsExact(s, events);
    ExactMeansBalanced(Run(s, events));
  }

  /** A committed last write: the queue is drained and every loss read by it is durable. */
  lemma LastCommitDrains(s: State)
    requires Inv(s) && s.phase.Writing? && s.phase.last
    ensures var s' := AppendStep(s, Committed);
      && s'.phase.Stopped? && |s'.settled| == s'.accepted
      && s'.acknowledged == s.phase.loss && s.rejected <= s.dropped
  {
    hide InsertNew, Durable, Batch;
  }

  /**
    A writer that drained the closed queue and committed its last write leaves
    nothing unexplained: every accepted event is in the table or counted, and
    the durable gaps cover every loss known when that write began.
   */
  lemma CleanStopExplainsEverything(s0: State, events: seq<Event>)
    requires Started(s0)
    requires var s := Run(s0, events); s.phase.Writing? && s.phase.last
    ensures var s := Run(s0, events);
      var s' := Run(s0, events + [Append(Committed)]);
      && s'.phase.Stopped? && |s'.settled| == s'.accepted && Conserved(s')
      && s'.acknowledged == s.phase.loss
      && (Atomic(events) ==> Balanced(s'))
  {
    hide Run, Inv, Conserved, Balanced, Started, AppendStep;
    StartInv(s0);
    RunKeepsInv(s0, events);
    LastCommitDrains(Run(s0, events));
    RunAppended(s0, events, Append(Committed));
    Conservation(s0, events + [Append(Committed)]);
    if Atomic(events) {
      ConservationIsExact(s0, events + [Append(Committed)]);
    }
  }

  lemma {:induction false} RunAppended(s: State, events: seq<Event>, e: Event)
    ensures Run(s, events + [e]) == Step(Run(s, events), e)
    decreases |events|
  {
    hide Step;
    if events == [] {
      assert events + [e] == [e];
      assert [e][1..] == [];
    } else {
      RunAppended(Step(s, events[0]), events[1..], e);
      assert (events + [e])[1..] == events[1..] + [e];
    }
  }

  // ----- When an event is taken -----

  /**
    An event joins the end of the queue if and only if it is valid, the recorder
    is open and fewer than 256 wait; a refused one is counted unless it came
    valid to a closed recorder.
   */
  lemma RecordTakesExactly(s: State, valid: bool)
    ensures var next, taken := Step(s, Record(valid)), valid && !s.closed && |s.queue| < 256;
            && next.queue == (if taken then s.queue + [s.accepted] else s.queue)
            && next.accepted == s.accepted + (if taken then 1 else 0)
            && next.dropped == s.dropped + (if taken || (valid && s.closed) then 0 else 1)
            && next.rejected - s.rejected == next.dropped - s.dropped
            && next.hand == s.hand && next.phase == s.phase && next.stored == s.stored && next.settled == s.settled
  {}

  /** The writer takes the oldest waiting event: one to start a batch, then one at a time up to 64. */
  lemma WriterTakesExactly(s: State)
    ensures var next := Step(s, Receive);
            if s.phase == Idle && |s.queue| > 0
            then next == s.(hand := [s.queue[0]], queue := s.queue[1..], phase := Collecting) else next == s
    ensures var next := Step(s, Collect);
            if s.phase == Collecting && |s.hand| < 64 && |s.queue| > 0
            then next == s.(hand := s.hand + [s.queue[0]], queue := s.queue[1..]) else next == s
  {}

  /** Over every run at most 256 events wait and at most 64 are in hand. */
  lemma NeverMoreThanFits(s: State, events: seq<Event>)
    requires Started(s)
    ensures |Run(s, events).queue| <= 256 && |Run(s, events).hand| <= 64
  {
    hide Run, Started, Step, Partitioned, Counted, Durable, Exact;
    StartInv(s);
    RunKeepsInv(s, events);
  }

  // ----- How a batch is written -----

  /** A write opens with the loss known then, and reports it exactly if some of it is not yet acknowledged. */
  lemma WriteOpensExactly(s: State)
    requires s.phase == Collecting && |s.hand| > 0
    ensures var next := Step(s, BeginWrite);
            var gap := if s.dropped > s.acknowledged then Reported(s.gapIds, s.dropped - s.acknowledged) else NoGap;
            && next.phase == Writing(s.dropped, gap, 0, false, false)
            && next.gapIds == s.gapIds + (if gap == NoGap then 0 else 1)
            && next.pending == |s.hand|
            && next == s.(phase := next.phase, pending := next.pending, gapIds := next.gapIds)
  {}

  /** Between writes the same happens for a loss alone; without one nothing is written. */
  lemma GapAloneIsWritten(s: State)
    requires s.phase == Idle && s.hand == []
    ensures Step(s, GapTick) ==
            if s.dropped > s.acknowledged
            then s.(phase := Writing(s.dropped, Reported(s.gapIds, s.dropped - s.acknowledged), 0, false, false),
                    pending := 0, gapIds := s.gapIds + 1)
            else s
  {}

  /**
    A batch is tried at most twice: kept in hand after a first failure, let go
    after a commit or a second failure, which counts every event of it.
   */
  lemma AttemptEndsExactly(s: State, outcome: Outcome)
    requires s.phase.Writing?
    ensures var next := Step(s, Append(outcome));
            && next.queue == s.queue && next.failures == s.failures + (if outcome == Committed then 0 else 1)
            && (if outcome == Committed then
                  next.hand == [] && next.dropped == s.dropped && next.acknowledged == s.phase.loss
                else
                  && next.acknowledged == s.acknowledged
                  && (s.phase.attempt == 0 ==> next.hand == s.hand && next.dropped == s.dropped)
                  && (s.phase.attempt != 0 ==> next.hand == [] && next.dropped == s.dropped + |s.hand|))
            && (if outcome != Committed && s.phase.attempt == 0
                then next.phase == s.phase.(attempt := 1, landed := s.phase.landed || outcome == Misreported)
                else next.phase == if s.phase.last then Stopped else Idle)
  {
    hide InsertNew, Batch;
  }

  /** Housekeeping between writes only counts its failures. */
  lemma PruningOnlyCounts(s: State, ok: bool)
    ensures Step(s, PruneTick(ok)) == if s.phase == Idle && !ok then s.(failures := 1 + s.failures) else s
  {}

  /**
    Closing is for good; only a closed recorder is canceled; an idle writer then
    gives up what waits, counting it, or, with nothing waiting, writes a last time.
   */
  lemma ShutdownStepsExactly(s: State)
    ensures Step(s, Close) == s.(closed := true)
    ensures Step(s, Cancel) == if s.closed then s.(canceled := true) else s
    ensures var next := Step(s, Abandon);
            if s.phase == Idle && s.canceled then
              && next == s.(queue := [], phase := Stopped, dropped := next.dropped, settled := next.settled)
              && next.dropped == s.dropped + |s.queue| && |next.settled| == |s.settled| + |s.queue|
              && (forall i | 0 <= i < |next.settled| ::
                    next.settled[i] == if i < |s.settled| then s.settled[i] else Fate(false, true))
            else next == s
    ensures s.phase == Idle && s.hand == [] ==>
              Step(s, FinalWrite) ==
              if !s.closed || |s.queue| > 0 then s
              else if s.dropped > s.acknowledged
              then s.(phase := Writing(s.dropped, Reported(s.gapIds, s.dropped - s.acknowledged), 0, false, true),
                      pending := 0, gapIds := s.gapIds + 1)
              else s.(phase := Stopped)
  {}
}

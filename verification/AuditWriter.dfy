/**
  The recorder object: producers call `Record`; the writer loop's `collect` and
  `write` are schedules of the recorder's steps with no producer in between.
 */
module AuditWriter {
  import opened AuditRecorder

  /** The writer filling its batch until the queue is empty or the batch is full. */
  function Gathered(s: State): State
    requires s.phase.Collecting?
    decreases |s.queue|
  {
    if |s.hand| < BATCH_LIMIT && s.queue != [] then Gathered(Step(s, Collect)) else s
  }

  /** The first append, and the retry if it failed. */
  function Attempted(s: State, first: Outcome, second: Outcome): State
    requires s.phase.Writing? && s.phase.attempt == 0
  {
    var once := Step(s, Append(first));
    if first.Committed? then once else Step(once, Append(second))
  }

  class Recorder {
    var queue: seq<nat>
    var closed: bool
    var hand: seq<nat>
    var dropped: nat
    var failures: nat
    var pending: nat
    var acknowledgedLoss: nat
    var stored: seq<Entry>
    ghost var canceled: bool
    ghost var phase: Phase
    ghost var accepted: nat
    ghost var rejected: nat
    ghost var settled: seq<Fate>
    var gapIds: nat
    ghost var overreported: nat

    ghost function Value(): State
      reads this
    {
      State(queue, closed, canceled, hand, phase, dropped, failures, acknowledgedLoss, pending, stored,
            accepted, rejected, settled, gapIds, overreported)
    }

    ghost predicate Valid()
      reads this
    {
      Inv(Value())
    }

    constructor ()
      ensures Valid() && Started(Value())
    {
      queue, closed, hand, dropped, failures, pending, acknowledgedLoss, stored := [], false, [], 0, 0, 0, 0, [];
      canceled, phase, accepted, rejected, settled, gapIds, overreported := false, Idle, 0, 0, [], 0, 0;
      new;
      StartInv(Value());
    }

    /** Enqueue without waiting for storage; false means the event was not taken. */
    method Record(event: nat, valid: bool) returns (taken: bool)
      requires Valid() && event == accepted
      modifies this
      ensures Valid()
      ensures Value() == Step(old(Value()), AuditRecorder.Record(valid))
      ensures taken <==> valid && !old(closed) && |old(queue)| < QUEUE_LIMIT
      ensures queue == if taken then old(queue) + [event] else old(queue)
    {
      hide Inv;
      StepKeepsInv(Value(), AuditRecorder.Record(valid));
      if !valid {
        dropped, rejected := dropped + 1, rejected + 1;
        return false;
      }
      if closed { return false; }
      if |queue| < QUEUE_LIMIT {
        queue, accepted := queue + [event], accepted + 1;
        return true;
      }
      dropped, rejected := dropped + 1, rejected + 1;
      return false;
    }

    /** Fill the batch from the queue. */
    method CollectBatch()
      requires Valid() && phase.Collecting?
      modifies this
      ensures Valid() && Value() == Gathered(old(Value()))
      ensures |hand| == BATCH_LIMIT || queue == []
      ensures hand + queue == old(hand) + old(queue)
    {
      hide Inv;
      HandBounded(Value());
      while |hand| < BATCH_LIMIT && queue != []
        invariant Valid() && phase.Collecting? && |hand| <= BATCH_LIMIT
        invariant Gathered(Value()) == Gathered(old(Value()))
        invariant hand + queue == old(hand) + old(queue)
        decreases |queue|
      {
        StepKeepsInv(Value(), Collect);
        assert queue == [queue[0]] + queue[1..];
        hand, queue := hand + [queue[0]], queue[1..];
      }
    }

    /** Read the loss counter and prepare the batch with a gap record for what is not yet acknowledged. */
    method PrepareBatch(last: bool) returns (batch: seq<Entry>, loss: nat)
      requires Valid() && (phase.Collecting? || (phase.Idle? && (last ==> closed && queue == [])))
      requires phase.Collecting? ==> !last
      modifies this
      ensures Value() == Enter(old(Value()), last)
      ensures phase.Writing? <==> batch != []
      ensures phase.Writing? ==> batch == Batch(Value()) && loss == phase.loss
    {
      loss := dropped;
      batch := Rows(hand);
      ghost var gap := NoGap;
      if acknowledgedLoss < loss {
        gap := Reported(gapIds, loss - acknowledgedLoss);
        batch := batch + [Gap(gapIds, loss - acknowledgedLoss)];
        gapIds := gapIds + 1;
      }
      assert |Rows(hand)| == |hand|;
      if batch == [] {
        phase := if last then Stopped else Idle;
        return;
      }
      pending := |hand|;
      phase := Writing(loss, gap, 0, false, last);
    }

    /** Let go of the batch; nothing is pending afterwards. */
    method Release(ghost fate: Fate)
      requires phase.Writing?
      modifies `hand, `pending, `settled, `phase
      ensures Value() == Settle(old(Value()), fate)
    {
      settled := settled + seq(|hand|, _ => fate);
      hand, pending, phase := [], 0, if phase.last then Stopped else Idle;
    }

    /** One append transaction; the second failure gives the batch up and counts it. */
    method TryAppend(batch: seq<Entry>, loss: nat, attempt: nat, outcome: Outcome)
      requires phase.Writing? && attempt == phase.attempt && loss == phase.loss && batch == Batch(Value())
      modifies this
      ensures Value() == AppendStep(old(Value()), outcome)
    {
      hide InsertNew, Batch, Settle;
      var count := |hand|;
      ghost var landed := phase.landed || !outcome.Failed?;
      if !outcome.Failed? {
        stored := InsertNew(stored, batch);
      }
      if outcome.Committed? {
        acknowledgedLoss := loss;
        Release(Fate(true, false));
        return;
      }
      failures := failures + 1;
      if attempt == 0 {
        phase := phase.(attempt := 1, landed := landed);
      } else {
        dropped := dropped + count;
        overreported := overreported + (if landed then GapCount(phase.gap) else 0);
        Release(Fate(landed, true));
      }
    }

    /**
      Append the batch, retrying once. The loss acknowledged on success is the
      one read before the first attempt.
     */
    method AppendBatch(batch: seq<Entry>, loss: nat, first: Outcome, second: Outcome)
      requires phase.Writing? && phase.attempt == 0 && !phase.landed && loss == phase.loss
      requires batch == Batch(Value())
      modifies this
      ensures Value() == Attempted(old(Value()), first, second)
    {
      ghost var start := Value();
      var outcomes := [first, second];
      var attempt := 0;
      while attempt < 2
        invariant 0 <= attempt <= 2
        invariant attempt == 0 ==> Value() == start
        invariant attempt == 1 ==> !first.Committed? && Value() == Step(start, Append(first))
        invariant attempt == 2 ==> Value() == Attempted(start, first, second)
      {
        AttemptContinues(start, first);
        TryAppend(batch, loss, attempt, outcomes[attempt]);
        if outcomes[attempt].Committed? {
          return;
        }
        attempt := attempt + 1;
      }
    }

    /** One `write`: from the read of the loss counter to the end of the last attempt. */
    method WriteBatch(last: bool, first: Outcome, second: Outcome)
      requires Valid() && (phase.Collecting? || (phase.Idle? && (last ==> closed && queue == [])))
      requires phase.Collecting? ==> !last
      modifies this
      ensures Valid()
      ensures var entered := Enter(old(Value()), last);
        Value() == if entered.phase.Writing? then Attempted(entered, first, second) else entered
    {
      hide Inv, InsertNew, AppendStep, Batch;
      WriteKeepsInv(Value(), last, first, second);
      var batch, loss := PrepareBatch(last);
      if batch != [] {
        AppendBatch(batch, loss, first, second);
      }
    }
  }

  /** A failed first attempt leaves the same batch in hand. */
  lemma AttemptContinues(s: State, outcome: Outcome)
    requires s.phase.Writing? && s.phase.attempt == 0
    ensures !outcome.Committed? ==>
      var s' := Step(s, Append(outcome));
      s'.phase.Writing? && s'.phase.attempt == 1 && s'.phase.loss == s.phase.loss && Batch(s') == Batch(s)
  {
    if !outcome.Committed? {
      SameBatch(s, Step(s, Append(outcome)));
    }
  }

  lemma WriteKeepsInv(s: State, last: bool, first: Outcome, second: Outcome)
    requires Inv(s) && (s.phase.Collecting? || (s.phase.Idle? && (last ==> s.closed && s.queue == [])))
    requires s.phase.Collecting? ==> !last
    ensures var entered := Enter(s, last);
      Inv(if entered.phase.Writing? then Attempted(entered, first, second) else entered)
  {
    EnterKeepsInv(s, last);
    hide Inv, AppendStep;
    var entered := Enter(s, last);
    if entered.phase.Writing? {
      StepKeepsInv(entered, Append(first));
      StepKeepsInv(Step(entered, Append(first)), Append(second));
    }
  }

  lemma HandBounded(s: State)
    requires Inv(s)
    ensures |s.hand| <= BATCH_LIMIT
  {
  }
}

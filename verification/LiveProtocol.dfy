/**
 The live session as a concurrent system: any number of producers, one background flusher, shutdown with
 its drain, a network that may delay, lose, repeat or reorder requests and lose answers, and a server that
 keys every stored event by (batch id, position). Tasks interleave only where the program awaits, so popping
 a batch and sending its first request is one step.
 */
module LiveProtocol {
  import opened Options
  import opened RetryPolicy
  import opened Session

  datatype Owner = Producer | Flusher | Drain

  /** A popped batch: its payload never changes after the pop. */
  datatype Batch = Batch(id: BatchId, events: seq<Event>, owner: Owner)

  datatype Phase = Posting(attempt: nat) | Backoff(attempt: nat) | Settled(verdict: Verdict) | Abandoned

  datatype Shutdown = Open | Draining | Drained

  /** The identity under which the server stores one event. */
  datatype Slot = Slot(batch: BatchId, index: nat)

  datatype State = State(
    enqueued: seq<Event>,             // every event ever put on the queue, in order
    queue: seq<Event>,
    popped: seq<Batch>,               // in pop order
    phase: seq<Phase>,                // of each popped batch
    sent: int,
    failed: nat,
    wire: seq<Request>,               // every request ever posted
    ledger: map<BatchId, seq<Event>>, // the server's receipts of admitted batches
    stored: map<Slot, Event>,
    shutdown: Shutdown)

  const INIT := State([], [], [], [], 0, 0, [], map[], map[], Open)

  datatype Step =
    | Put(event: Event)                                      // log, metric
    | Record(event: Event, id: BatchId)                      // record, with its eager flush
    | FlusherTick(id: BatchId)
    | Deliver(request: nat, admitted: bool, upTo: nat)       // any posted request, at any time, any number of times
    | Answer(batch: nat, reply: Reply, elapsed: real)
    | Wake(batch: nat)                                       // the retry sleep ends
    | Cancel                                                 // _shutdown cancels the flusher
    | DrainPop(id: BatchId)
    | DrainEnd

  predicate InFlight(p: Phase) {
    p.Posting? || p.Backoff?
  }

  predicate Busy(s: State, owner: Owner) {
    exists k :: 0 <= k < |s.popped| && k < |s.phase| && s.popped[k].owner == owner && InFlight(s.phase[k])
  }

  predicate Fresh(s: State, id: BatchId) {
    forall k :: 0 <= k < |s.popped| ==> s.popped[k].id != id
  }

  predicate Success(reply: Reply) {
    reply.Http? && 200 <= reply.code < 300
  }

  predicate Enabled(s: State, step: Step) {
    match step
    case Put(_) => |s.queue| < MAX_QUEUE_SIZE
    case Record(_, id) => |s.queue| < MAX_QUEUE_SIZE && Fresh(s, id)
    case FlusherTick(id) => s.shutdown.Open? && !Busy(s, Flusher) && Fresh(s, id)
    case Deliver(w, _, _) => w < |s.wire|
    case Answer(k, reply, _) =>
      && k < |s.popped| && k < |s.phase| && s.phase[k].Posting?
      // Only the server answers 2xx, and only once it holds the batch; the count it gives may be anything.
      && (Success(reply) ==> s.popped[k].id in s.ledger)
    case Wake(k) => k < |s.popped| && k < |s.phase| && s.phase[k].Backoff?
    case Cancel => s.shutdown.Open?
    case DrainPop(id) => s.shutdown.Draining? && !Busy(s, Drain) && s.queue != [] && Fresh(s, id)
    case DrainEnd => s.shutdown.Draining? && !Busy(s, Drain) && s.queue == []
  }

  function Pop(s: State, limit: int, owner: Owner, id: BatchId): State {
    var n := PopCount(limit, |s.queue|);
    if n == 0 then s
    else s.(queue := s.queue[n..],
            popped := s.popped + [Batch(id, s.queue[..n], owner)],
            phase := s.phase + [Posting(1)],
            wire := s.wire + [Request(id, s.queue[..n])])
  }

  function Entries(r: Request, n: nat): map<Slot, Event>
    requires n <= |r.events|
  {
    map i: nat | i < n :: Slot(r.id, i) := r.events[i]
  }

  /** The server's admission: a batch it holds a receipt for is answered from the receipt; any other is
      stored whole with a receipt, or (an admission that dies half way) in part and without one. */
  function Admit(s: State, r: Request, admitted: bool, upTo: nat): State {
    if r.id in s.ledger then s
    else if admitted then s.(ledger := s.ledger[r.id := r.events], stored := Entries(r, |r.events|) + s.stored)
    else s.(stored := Entries(r, PopCount(upTo, |r.events|)) + s.stored)
  }

  function Enqueue(s: State, e: Event): State {
    s.(enqueued := s.enqueued + [e], queue := s.queue + [e])
  }

  /** Cancellation passes every handler of the retry loop: the flusher's batch is neither sent nor failed. */
  function Abandon(popped: seq<Batch>, phase: seq<Phase>): seq<Phase>
    requires |popped| == |phase|
  {
    seq(|phase|, k requires 0 <= k < |phase| =>
      if popped[k].owner.Flusher? && InFlight(phase[k]) then Abandoned else phase[k])
  }

  function Apply(batchSize: int, s: State, step: Step): State
    requires |s.popped| == |s.phase| && Enabled(s, step)
  {
    match step
    case Put(e) => Enqueue(s, e)
    case Record(e, id) =>
      var t := Enqueue(s, e);
      if |t.queue| >= batchSize then Pop(t, batchSize, Producer, id) else t
    case FlusherTick(id) => Pop(s, batchSize, Flusher, id)
    case Deliver(w, admitted, upTo) => Admit(s, s.wire[w], admitted, upTo)
    case Answer(k, reply, elapsed) =>
      var count := |s.popped[k].events|;
      (match Judge(reply, s.phase[k].attempt, elapsed, count)
       case Sent(n) => s.(phase := s.phase[k := Settled(Sent(n))], sent := s.sent + n)
       case Failed => s.(phase := s.phase[k := Settled(Failed)], failed := s.failed + count)
       case Retry(_) => s.(phase := s.phase[k := Backoff(s.phase[k].attempt)]))
    case Wake(k) =>
      s.(phase := s.phase[k := Posting(s.phase[k].attempt + 1)],
         wire := s.wire + [Request(s.popped[k].id, s.popped[k].events)])
    case Cancel => s.(phase := Abandon(s.popped, s.phase), shutdown := Draining)
    case DrainPop(id) => Pop(s, MAX_BATCH_SIZE, Drain, id)
    case DrainEnd => s.(shutdown := Drained)
  }

  // ----- What the state means -----

  function Events(popped: seq<Batch>): seq<Event> {
    if popped == [] then [] else Events(popped[..|popped| - 1]) + popped[|popped| - 1].events
  }

  datatype Bucket = SentEvents | FailedEvents | OpenEvents | AbandonedEvents

  function BucketOf(p: Phase): Bucket {
    match p
    case Posting(_) | Backoff(_) => OpenEvents
    case Settled(v) => if v.Sent? then SentEvents else FailedEvents
    case Abandoned => AbandonedEvents
  }

  /** How many events of the popped batches are in `bucket`. */
  function Tally(popped: seq<Batch>, phase: seq<Phase>, bucket: Bucket): nat
    requires |popped| == |phase|
  {
    if popped == [] then 0
    else
      var k := |popped| - 1;
      Tally(popped[..k], phase[..k], bucket) + (if BucketOf(phase[k]) == bucket then |popped[k].events| else 0)
  }

  /** What the server said it accepted of a batch, once the batch reached the sent branch. */
  function Accepted(p: Phase): int {
    if p.Settled? && p.verdict.Sent? then p.verdict.accepted else 0
  }

  function Reported(phase: seq<Phase>): int {
    if phase == [] then 0 else Reported(phase[..|phase| - 1]) + Accepted(phase[|phase| - 1])
  }

  // ----- The invariant, each part over the fields it speaks of -----

  ghost predicate Conserved(enqueued: seq<Event>, popped: seq<Batch>, queue: seq<Event>) {
    enqueued == Events(popped) + queue
  }

  ghost predicate WellFormedBatches(popped: seq<Batch>) {
    && (forall k :: 0 <= k < |popped| ==> 0 < |popped[k].events| <= MAX_BATCH_SIZE)
    && (forall j, k :: 0 <= j < k < |popped| ==> popped[j].id != popped[k].id)
  }

  predicate WellFormedPhase(p: Phase) {
    match p
    case Posting(a) => 1 <= a <= MAX_RETRIES
    case Backoff(a) => 1 <= a < MAX_RETRIES
    case Settled(v) => !v.Retry?
    case Abandoned => true
  }

  /** The flusher's batch in flight, or the one it left behind. */
  predicate FlusherBatch(owner: Owner, p: Phase) {
    p.Abandoned? || (owner.Flusher? && InFlight(p))
  }

  ghost predicate Owned(popped: seq<Batch>, phase: seq<Phase>, shutdown: Shutdown)
    requires |popped| == |phase|
  {
    && (forall j, k :: 0 <= j < k < |popped| ==>
          !(FlusherBatch(popped[j].owner, phase[j]) && FlusherBatch(popped[k].owner, phase[k])))
    && (forall k :: 0 <= k < |popped| ==>
          && WellFormedPhase(phase[k])
          && (phase[k].Abandoned? ==> popped[k].owner.Flusher? && !shutdown.Open?)
          && (InFlight(phase[k]) && popped[k].owner.Flusher? ==> shutdown.Open?)
          && (InFlight(phase[k]) && popped[k].owner.Drain? ==> shutdown.Draining?))
  }

  ghost predicate IsPayload(popped: seq<Batch>, id: BatchId, events: seq<Event>) {
    exists k :: 0 <= k < |popped| && popped[k].id == id && popped[k].events == events
  }

  ghost predicate IsEntry(popped: seq<Batch>, slot: Slot, e: Event) {
    exists k :: 0 <= k < |popped| && popped[k].id == slot.batch
                && slot.index < |popped[k].events| && popped[k].events[slot.index] == e
  }

  ghost predicate WholeBatch(id: BatchId, count: nat, stored: map<Slot, Event>) {
    forall i: nat :: i < count ==> Slot(id, i) in stored
  }

  ghost predicate WireSound(popped: seq<Batch>, wire: seq<Request>) {
    forall w :: 0 <= w < |wire| ==> IsPayload(popped, wire[w].id, wire[w].events)
  }

  ghost predicate LedgerSound(popped: seq<Batch>, ledger: map<BatchId, seq<Event>>, stored: map<Slot, Event>) {
    forall id :: id in ledger ==> IsPayload(popped, id, ledger[id]) && WholeBatch(id, |ledger[id]|, stored)
  }

  ghost predicate StoreSound(popped: seq<Batch>, stored: map<Slot, Event>) {
    forall slot :: slot in stored ==> IsEntry(popped, slot, stored[slot])
  }

  ghost predicate SentSound(popped: seq<Batch>, phase: seq<Phase>, ledger: map<BatchId, seq<Event>>)
    requires |popped| == |phase|
  {
    forall k :: 0 <= k < |popped| && BucketOf(phase[k]).SentEvents? ==> popped[k].id in ledger
  }

  ghost predicate Counted(popped: seq<Batch>, phase: seq<Phase>, sent: int, failed: nat)
    requires |popped| == |phase|
  {
    sent == Reported(phase) && failed == Tally(popped, phase, FailedEvents)
  }

  ghost predicate Inv(s: State) {
    && |s.popped| == |s.phase|
    && Conserved(s.enqueued, s.popped, s.queue)
    && WellFormedBatches(s.popped)
    && Owned(s.popped, s.phase, s.shutdown)
    && WireSound(s.popped, s.wire)
    && LedgerSound(s.popped, s.ledger, s.stored)
    && StoreSound(s.popped, s.stored)
    && SentSound(s.popped, s.phase, s.ledger)
    && Counted(s.popped, s.phase, s.sent, s.failed)
  }

  // ----- Every step keeps the invariant -----

  lemma {:induction false} TallyUpdate(popped: seq<Batch>, phase: seq<Phase>, k: nat, p: Phase, bucket: Bucket)
    requires |popped| == |phase| && k < |popped|
    ensures Tally(popped, phase[k := p], bucket) + (if BucketOf(phase[k]) == bucket then |popped[k].events| else 0)
         == Tally(popped, phase, bucket) + (if BucketOf(p) == bucket then |popped[k].events| else 0)
  {
    var n := |popped| - 1;
    if k < n {
      TallyUpdate(popped[..n], phase[..n], k, p, bucket);
      assert phase[k := p][..n] == phase[..n][k := p];
    } else {
      assert phase[k := p][..n] == phase[..n];
    }
  }

  lemma {:induction false} ReportedUpdate(phase: seq<Phase>, k: nat, p: Phase)
    requires k < |phase|
    ensures Reported(phase[k := p]) == Reported(phase) - Accepted(phase[k]) + Accepted(p)
  {
    var n := |phase| - 1;
    if k < n {
      ReportedUpdate(phase[..n], k, p);
      assert phase[k := p][..n] == phase[..n][k := p];
    } else {
      assert phase[k := p][..n] == phase[..n];
    }
  }

  lemma {:induction false} ReportedAbandon(popped: seq<Batch>, phase: seq<Phase>)
    requires |popped| == |phase|
    ensures Reported(Abandon(popped, phase)) == Reported(phase)
  {
    if popped != [] {
      var n := |popped| - 1;
      ReportedAbandon(popped[..n], phase[..n]);
      assert Abandon(popped, phase)[..n] == Abandon(popped[..n], phase[..n]);
    }
  }

  lemma {:induction false} TallyAbandon(popped: seq<Batch>, phase: seq<Phase>, bucket: Bucket)
    requires |popped| == |phase| && (bucket.SentEvents? || bucket.FailedEvents?)
    ensures Tally(popped, Abandon(popped, phase), bucket) == Tally(popped, phase, bucket)
  {
    if popped != [] {
      var n := |popped| - 1;
      TallyAbandon(popped[..n], phase[..n], bucket);
      assert Abandon(popped, phase)[..n] == Abandon(popped[..n], phase[..n]);
    }
  }

  lemma IsPayloadGrows(popped: seq<Batch>, b: Batch, id: BatchId, events: seq<Event>)
    requires IsPayload(popped, id, events)
    ensures IsPayload(popped + [b], id, events)
  {
    var k :| 0 <= k < |popped| && popped[k].id == id && popped[k].events == events;
    assert (popped + [b])[k] == popped[k];
  }

  lemma IsEntryGrows(popped: seq<Batch>, b: Batch, slot: Slot, e: Event)
    requires IsEntry(popped, slot, e)
    ensures IsEntry(popped + [b], slot, e)
  {
    var k :| 0 <= k < |popped| && popped[k].id == slot.batch
             && slot.index < |popped[k].events| && popped[k].events[slot.index] == e;
    assert (popped + [b])[k] == popped[k];
  }

  lemma PopKeepsServer(s: State, b: Batch)
    requires |s.popped| == |s.phase| && WireSound(s.popped, s.wire) && LedgerSound(s.popped, s.ledger, s.stored)
    requires StoreSound(s.popped, s.stored) && SentSound(s.popped, s.phase, s.ledger)
    ensures WireSound(s.popped + [b], s.wire + [Request(b.id, b.events)])
    ensures LedgerSound(s.popped + [b], s.ledger, s.stored)
    ensures StoreSound(s.popped + [b], s.stored)
    ensures SentSound(s.popped + [b], s.phase + [Posting(1)], s.ledger)
  {
    var popped, wire := s.popped + [b], s.wire + [Request(b.id, b.events)];
    forall w | 0 <= w < |wire|
      ensures IsPayload(popped, wire[w].id, wire[w].events)
    {
      if w < |s.wire| {
        IsPayloadGrows(s.popped, b, s.wire[w].id, s.wire[w].events);
      } else {
        assert popped[|s.popped|] == b;
      }
    }
    forall id | id in s.ledger
      ensures IsPayload(popped, id, s.ledger[id])
    {
      IsPayloadGrows(s.popped, b, id, s.ledger[id]);
    }
    forall slot | slot in s.stored
      ensures IsEntry(popped, slot, s.stored[slot])
    {
      IsEntryGrows(s.popped, b, slot, s.stored[slot]);
    }
  }

  lemma PopKeepsClient(s: State, b: Batch)
    requires |s.popped| == |s.phase| && WellFormedBatches(s.popped) && Owned(s.popped, s.phase, s.shutdown)
    requires Counted(s.popped, s.phase, s.sent, s.failed) && Fresh(s, b.id) && 0 < |b.events| <= MAX_BATCH_SIZE
    requires b.owner.Flusher? ==> s.shutdown.Open? && !Busy(s, Flusher)
    requires b.owner.Drain? ==> s.shutdown.Draining?
    ensures WellFormedBatches(s.popped + [b])
    ensures Owned(s.popped + [b], s.phase + [Posting(1)], s.shutdown)
    ensures Counted(s.popped + [b], s.phase + [Posting(1)], s.sent, s.failed)
  {
    PopKeepsBatches(s, b);
    PopKeepsCounts(s, b);
    hide WellFormedBatches, Counted, Tally;
  }

  lemma PopKeepsBatches(s: State, b: Batch)
    requires WellFormedBatches(s.popped) && Fresh(s, b.id) && 0 < |b.events| <= MAX_BATCH_SIZE
    ensures WellFormedBatches(s.popped + [b])
  {
    hide Events;
  }

  lemma PopKeepsCounts(s: State, b: Batch)
    requires |s.popped| == |s.phase| && Counted(s.popped, s.phase, s.sent, s.failed)
    ensures Counted(s.popped + [b], s.phase + [Posting(1)], s.sent, s.failed)
  {
    var popped, phase := s.popped + [b], s.phase + [Posting(1)];
    assert popped[..|s.popped|] == s.popped && phase[..|s.popped|] == s.phase;
    hide Events;
  }

  lemma PopConserves(enqueued: seq<Event>, popped: seq<Batch>, queue: seq<Event>, b: Batch, n: nat)
    requires Conserved(enqueued, popped, queue) && n <= |queue| && b.events == queue[..n]
    ensures Conserved(enqueued, popped + [b], queue[n..])
  {
    assert (popped + [b])[..|popped|] == popped;
    assert queue == queue[..n] + queue[n..];
  }

  lemma PopKeepsInv(s: State, limit: int, owner: Owner, id: BatchId)
    requires Inv(s) && limit <= MAX_BATCH_SIZE && Fresh(s, id)
    requires owner.Flusher? ==> s.shutdown.Open? && !Busy(s, Flusher)
    requires owner.Drain? ==> s.shutdown.Draining?
    ensures Inv(Pop(s, limit, owner, id))
  {
    var n := PopCount(limit, |s.queue|);
    if n > 0 {
      var b := Batch(id, s.queue[..n], owner);
      hide WireSound, LedgerSound, StoreSound, SentSound, WellFormedBatches, Owned, Counted, Conserved, Fresh, Busy;
      PopKeepsServer(s, b);
      PopKeepsClient(s, b);
      PopConserves(s.enqueued, s.popped, s.queue, b, n);
    }
  }

  /** Settling or re-arming one batch in flight: what the phases say stays true. */
  lemma PhaseKeepsInv(s: State, k: nat, p: Phase, sent: int, failed: nat)
    requires Inv(s) && k < |s.popped| && InFlight(s.phase[k]) && WellFormedPhase(p) && !p.Abandoned?
    requires BucketOf(p).SentEvents? ==> s.popped[k].id in s.ledger
    requires sent == s.sent + Accepted(p)
    requires failed == s.failed + (if BucketOf(p).FailedEvents? then |s.popped[k].events| else 0)
    ensures Inv(s.(phase := s.phase[k := p], sent := sent, failed := failed))
  {
    hide WireSound, LedgerSound, StoreSound, WellFormedBatches, Conserved, Counted, Owned, SentSound;
    PhaseKeepsOwned(s, k, p);
    PhaseKeepsSent(s, k, p);
    PhaseKeepsCounts(s, k, p, sent, failed);
  }

  lemma PhaseKeepsOwned(s: State, k: nat, p: Phase)
    requires |s.popped| == |s.phase| && Owned(s.popped, s.phase, s.shutdown)
    requires k < |s.popped| && InFlight(s.phase[k]) && WellFormedPhase(p) && !p.Abandoned?
    ensures Owned(s.popped, s.phase[k := p], s.shutdown)
  {
  }

  lemma PhaseKeepsSent(s: State, k: nat, p: Phase)
    requires |s.popped| == |s.phase| && SentSound(s.popped, s.phase, s.ledger)
    requires k < |s.popped| && (BucketOf(p).SentEvents? ==> s.popped[k].id in s.ledger)
    ensures SentSound(s.popped, s.phase[k := p], s.ledger)
  {
  }

  lemma PhaseKeepsCounts(s: State, k: nat, p: Phase, sent: int, failed: nat)
    requires |s.popped| == |s.phase| && Counted(s.popped, s.phase, s.sent, s.failed)
    requires k < |s.popped| && InFlight(s.phase[k])
    requires sent == s.sent + Accepted(p)
    requires failed == s.failed + (if BucketOf(p).FailedEvents? then |s.popped[k].events| else 0)
    ensures Counted(s.popped, s.phase[k := p], sent, failed)
  {
    ReportedUpdate(s.phase, k, p);
    TallyUpdate(s.popped, s.phase, k, p, FailedEvents);
    hide Tally, Reported;
  }

  lemma AnswerKeepsInv(s: State, k: nat, reply: Reply, elapsed: real, batchSize: int)
    requires Inv(s) && Enabled(s, Answer(k, reply, elapsed))
    ensures Inv(Apply(batchSize, s, Answer(k, reply, elapsed)))
  {
    var count := |s.popped[k].events|;
    SentMeansReceipt(s, k, reply, elapsed);
    RetryWithinBudget(reply, s.phase[k].attempt, elapsed, count);
    assert WellFormedPhase(s.phase[k]);
    var t := Apply(batchSize, s, Answer(k, reply, elapsed));
    hide Judge, Inv;
    PhaseKeepsInv(s, k, t.phase[k], t.sent, t.failed);
  }

  /** A batch reaches the sent branch only when the server holds it, whole and unchanged; `sent` then grows by
      what the server says it accepted, which is the batch's length if it says nothing or the length it holds. */
  lemma SentMeansReceipt(s: State, k: nat, reply: Reply, elapsed: real)
    requires Inv(s) && Enabled(s, Answer(k, reply, elapsed))
    ensures var b := s.popped[k];
            var v := Judge(reply, s.phase[k].attempt, elapsed, |b.events|);
            v.Sent? ==>
              && b.id in s.ledger && s.ledger[b.id] == b.events
              && reply.body.Accepted?
              && v.accepted == (if reply.body.count.Some? then reply.body.count.value else |b.events|)
              && (reply.body.count in {None, Some(|s.ledger[b.id]|)} ==> v.accepted == |b.events|)
  {
    var id := s.popped[k].id;
    if id in s.ledger {
      var j :| 0 <= j < |s.popped| && s.popped[j].id == id && s.popped[j].events == s.ledger[id];
      assert j == k;
    }
  }

  lemma WakeKeepsInv(s: State, k: nat, batchSize: int)
    requires Inv(s) && Enabled(s, Wake(k))
    ensures Inv(Apply(batchSize, s, Wake(k)))
  {
    assert WellFormedPhase(s.phase[k]);
    PhaseKeepsInv(s, k, Posting(s.phase[k].attempt + 1), s.sent, s.failed);
    assert IsPayload(s.popped, s.popped[k].id, s.popped[k].events);
    hide LedgerSound, StoreSound, SentSound, WellFormedBatches, Owned, Counted, Conserved;
  }

  lemma CancelKeepsInv(s: State, batchSize: int)
    requires Inv(s) && Enabled(s, Cancel)
    ensures Inv(Apply(batchSize, s, Cancel))
  {
    hide WireSound, LedgerSound, StoreSound, WellFormedBatches, Conserved, Counted, Owned, SentSound, Abandon;
    AbandonKeepsOwned(s.popped, s.phase);
    AbandonKeepsSent(s.popped, s.phase, s.ledger);
    AbandonKeepsCounts(s);
  }

  lemma AbandonKeepsOwned(popped: seq<Batch>, phase: seq<Phase>)
    requires |popped| == |phase| && Owned(popped, phase, Open)
    ensures |Abandon(popped, phase)| == |phase| && Owned(popped, Abandon(popped, phase), Draining)
  {
  }

  lemma AbandonKeepsSent(popped: seq<Batch>, phase: seq<Phase>, ledger: map<BatchId, seq<Event>>)
    requires |popped| == |phase| && SentSound(popped, phase, ledger)
    ensures |Abandon(popped, phase)| == |phase| && SentSound(popped, Abandon(popped, phase), ledger)
  {
  }

  lemma AbandonKeepsCounts(s: State)
    requires |s.popped| == |s.phase| && Counted(s.popped, s.phase, s.sent, s.failed)
    ensures |Abandon(s.popped, s.phase)| == |s.phase|
    ensures Counted(s.popped, Abandon(s.popped, s.phase), s.sent, s.failed)
  {
    ReportedAbandon(s.popped, s.phase);
    TallyAbandon(s.popped, s.phase, FailedEvents);
    hide Tally, Reported;
  }

  lemma EntriesSound(popped: seq<Batch>, r: Request, n: nat)
    requires n <= |r.events| && IsPayload(popped, r.id, r.events)
    ensures forall slot :: slot in Entries(r, n) ==> IsEntry(popped, slot, Entries(r, n)[slot])
    ensures WholeBatch(r.id, n, Entries(r, n))
  {
    var k :| 0 <= k < |popped| && popped[k].id == r.id && popped[k].events == r.events;
    forall slot | slot in Entries(r, n)
      ensures IsEntry(popped, slot, Entries(r, n)[slot])
    {
      assert popped[k].events[slot.index] == Entries(r, n)[slot];
    }
  }

  lemma StoreGrows(s: State, r: Request, n: nat, ledger: map<BatchId, seq<Event>>)
    requires n <= |r.events| && IsPayload(s.popped, r.id, r.events)
    requires ledger == s.ledger || (n == |r.events| && ledger == s.ledger[r.id := r.events])
    requires LedgerSound(s.popped, s.ledger, s.stored) && StoreSound(s.popped, s.stored)
    ensures LedgerSound(s.popped, ledger, Entries(r, n) + s.stored)
    ensures StoreSound(s.popped, Entries(r, n) + s.stored)
  {
    EntriesSound(s.popped, r, n);
    hide Entries, IsEntry, IsPayload;
  }

  lemma DeliverKeepsInv(s: State, w: nat, admitted: bool, upTo: nat, batchSize: int)
    requires Inv(s) && Enabled(s, Deliver(w, admitted, upTo))
    ensures Inv(Apply(batchSize, s, Deliver(w, admitted, upTo)))
  {
    var r := s.wire[w];
    if r.id !in s.ledger {
      var n := if admitted then |r.events| else PopCount(upTo, |r.events|);
      assert IsPayload(s.popped, r.id, r.events);
      StoreGrows(s, r, n, if admitted then s.ledger[r.id := r.events] else s.ledger);
      hide LedgerSound, StoreSound, WellFormedBatches, Owned, Counted, Conserved, WireSound, Entries;
    }
  }

  lemma StepKeepsInv(batchSize: int, s: State, step: Step)
    requires batchSize <= MAX_BATCH_SIZE && Inv(s) && Enabled(s, step)
    ensures Inv(Apply(batchSize, s, step))
  {
    hide Counted, Owned, WireSound, LedgerSound, StoreSound, SentSound, WellFormedBatches;
    match step
    case Put(e) =>
    case Record(e, id) =>
      if |s.queue| + 1 >= batchSize {
        PopKeepsInv(Enqueue(s, e), batchSize, Producer, id);
      }
    case FlusherTick(id) => PopKeepsInv(s, batchSize, Flusher, id);
    case Deliver(w, admitted, upTo) => DeliverKeepsInv(s, w, admitted, upTo, batchSize);
    case Answer(k, reply, elapsed) => AnswerKeepsInv(s, k, reply, elapsed, batchSize);
    case Wake(k) => WakeKeepsInv(s, k, batchSize);
    case Cancel => CancelKeepsInv(s, batchSize);
    case DrainPop(id) => PopKeepsInv(s, MAX_BATCH_SIZE, Drain, id);
    case DrainEnd => DrainEndKeepsInv(s, batchSize);
  }

  lemma DrainEndKeepsInv(s: State, batchSize: int)
    requires Inv(s) && Enabled(s, DrainEnd)
    ensures Inv(Apply(batchSize, s, DrainEnd))
  {
  }

  // ----- Whole runs -----

  /** `steps` leads from `s` to `t`, each step enabled where it is taken. */
  ghost predicate Run(batchSize: int, s: State, steps: seq<Step>, t: State)
    decreases |steps|
  {
    if steps == [] then s == t
    else
      && |s.popped| == |s.phase|
      && Enabled(s, steps[0])
      && Run(batchSize, Apply(batchSize, s, steps[0]), steps[1..], t)
  }

  lemma {:induction false} RunKeepsInv(batchSize: int, s: State, steps: seq<Step>, t: State)
    requires batchSize <= MAX_BATCH_SIZE && Inv(s) && Run(batchSize, s, steps, t)
    ensures Inv(t)
    decreases |steps|
  {
    if steps != [] {
      StepKeepsInv(batchSize, s, steps[0]);
      RunKeepsInv(batchSize, Apply(batchSize, s, steps[0]), steps[1..], t);
    }
  }

  /** Conservation and order: in every run the events put on the queue are the popped batches in pop order
      followed by the queue, no batch is empty or above the cap, and batch ids are distinct. */
  lemma ConservationFifo(batchSize: int, steps: seq<Step>, t: State)
    requires batchSize <= MAX_BATCH_SIZE && Run(batchSize, INIT, steps, t)
    ensures t.enqueued == Events(t.popped) + t.queue
    ensures forall k :: 0 <= k < |t.popped| ==> 0 < |t.popped[k].events| <= MAX_BATCH_SIZE
    ensures forall j, k :: 0 <= j < k < |t.popped| ==> t.popped[j].id != t.popped[k].id
  {
    RunKeepsInv(batchSize, INIT, steps, t);
  }

  predicate Final(p: Phase) {
    p.Settled? || p.Abandoned?
  }

  ghost predicate PhasesExtend(s: State, t: State) {
    && |s.popped| == |s.phase| && |t.popped| == |t.phase|
    && s.popped <= t.popped
    && forall k :: 0 <= k < |s.popped| && Final(s.phase[k]) ==> t.phase[k] == s.phase[k]
  }

  lemma StepExtendsPhases(batchSize: int, s: State, step: Step)
    requires |s.popped| == |s.phase| && Enabled(s, step)
    ensures PhasesExtend(s, Apply(batchSize, s, step))
  {
    hide Judge;
  }

  /** A batch is settled at most once: whatever happens later, its payload, its place in pop order and its
      final state stay what they are. */
  lemma {:induction false} SettledOnce(batchSize: int, s: State, steps: seq<Step>, t: State)
    requires |s.popped| == |s.phase| && Run(batchSize, s, steps, t)
    ensures PhasesExtend(s, t)
    decreases |steps|
  {
    if steps != [] {
      var next := Apply(batchSize, s, steps[0]);
      StepExtendsPhases(batchSize, s, steps[0]);
      SettledOnce(batchSize, next, steps[1..], t);
      assert forall k :: 0 <= k < |s.popped| ==> next.popped[k] == s.popped[k];
    }
  }

  /** At most one batch is ever neither sent nor failed for good: the one the cancelled flusher was posting. */
  lemma OneAbandoned(batchSize: int, steps: seq<Step>, t: State)
    requires batchSize <= MAX_BATCH_SIZE && Run(batchSize, INIT, steps, t)
    ensures |t.popped| == |t.phase|
    ensures forall j, k | 0 <= j < k < |t.popped| :: !(t.phase[j].Abandoned? && t.phase[k].Abandoned?)
    ensures forall k :: 0 <= k < |t.popped| && t.phase[k].Abandoned? ==>
              t.popped[k].owner.Flusher? && !t.shutdown.Open?
  {
    hide *;
    InitInv();
    RunKeepsInv(batchSize, INIT, steps, t);
    OwnedOne(t);
  }

  lemma OwnedOne(t: State)
    requires Inv(t)
    ensures |t.popped| == |t.phase|
    ensures forall j, k | 0 <= j < k < |t.popped| :: !(t.phase[j].Abandoned? && t.phase[k].Abandoned?)
    ensures forall k :: 0 <= k < |t.popped| && t.phase[k].Abandoned? ==>
              t.popped[k].owner.Flusher? && !t.shutdown.Open?
  {
    hide WireSound, LedgerSound, StoreSound, WellFormedBatches, Conserved, Counted, SentSound;
  }

  lemma {:induction false} TalliesCoverBatches(popped: seq<Batch>, phase: seq<Phase>)
    requires |popped| == |phase|
    ensures Tally(popped, phase, SentEvents) + Tally(popped, phase, FailedEvents)
            + Tally(popped, phase, OpenEvents) + Tally(popped, phase, AbandonedEvents) == |Events(popped)|
  {
    if popped != [] {
      TalliesCoverBatches(popped[..|popped| - 1], phase[..|popped| - 1]);
    }
  }

  /** The server's counts are those of the batches it answers. */
  ghost predicate HonestCounts(popped: seq<Batch>, phase: seq<Phase>)
    requires |popped| == |phase|
  {
    forall k :: 0 <= k < |popped| && phase[k].Settled? && phase[k].verdict.Sent? ==>
      phase[k].verdict.accepted == |popped[k].events|
  }

  lemma {:induction false} HonestReported(popped: seq<Batch>, phase: seq<Phase>)
    requires |popped| == |phase| && HonestCounts(popped, phase)
    ensures Reported(phase) == Tally(popped, phase, SentEvents)
  {
    if popped != [] {
      HonestReported(popped[..|popped| - 1], phase[..|popped| - 1]);
    }
  }

  /** The counters in every state: `failed` is the events of the failed batches and `sent` is what the server
      reported of the sent ones. With the events queued, in flight or abandoned they add up to everything
      enqueued exactly when the reports add up to the events of the sent batches, as they do if the server counts
      honestly. */
  lemma CountersBalance(batchSize: int, steps: seq<Step>, t: State)
    requires batchSize <= MAX_BATCH_SIZE && Run(batchSize, INIT, steps, t)
    ensures |t.popped| == |t.phase|
    ensures t.sent == Reported(t.phase) && t.failed == Tally(t.popped, t.phase, FailedEvents)
    ensures t.sent + t.failed + Tally(t.popped, t.phase, OpenEvents) + Tally(t.popped, t.phase, AbandonedEvents)
            + |t.queue| == |t.enqueued|
            <==> Reported(t.phase) == Tally(t.popped, t.phase, SentEvents)
    ensures HonestCounts(t.popped, t.phase) ==> Reported(t.phase) == Tally(t.popped, t.phase, SentEvents)
  {
    RunKeepsInv(batchSize, INIT, steps, t);
    TalliesCoverBatches(t.popped, t.phase);
    if HonestCounts(t.popped, t.phase) {
      HonestReported(t.popped, t.phase);
    }
  }

  // ----- Exactly once -----

  /** The index of the popped batch with this id (ids are distinct). */
  ghost function Home(popped: seq<Batch>, id: BatchId): nat
    requires exists k :: 0 <= k < |popped| && popped[k].id == id
    ensures Home(popped, id) < |popped| && popped[Home(popped, id)].id == id
  {
    var k :| 0 <= k < |popped| && popped[k].id == id;
    k
  }

  /** Which recorded event a stored slot stands for: its place in the enqueue order. */
  ghost function Origin(popped: seq<Batch>, slot: Slot): nat
    requires exists k :: 0 <= k < |popped| && popped[k].id == slot.batch
  {
    |Events(popped[..Home(popped, slot.batch)])| + slot.index
  }

  lemma {:induction false} EventsPrefix(popped: seq<Batch>, k: nat)
    requires k < |popped|
    ensures Events(popped[..k]) + popped[k].events <= Events(popped)
    decreases |popped|
  {
    if k == |popped| - 1 {
      assert popped[..k] == popped[..|popped| - 1];
    } else {
      var init := popped[..|popped| - 1];
      EventsPrefix(init, k);
      assert init[..k] == popped[..k];
    }
  }

  lemma {:induction false} EventsMonotone(popped: seq<Batch>, j: nat, k: nat)
    requires j < k <= |popped|
    ensures |Events(popped[..j])| + |popped[j].events| <= |Events(popped[..k])|
  {
    EventsPrefix(popped[..k], j);
    assert popped[..k][..j] == popped[..j];
  }

  lemma HomeIs(popped: seq<Batch>, k: nat)
    requires WellFormedBatches(popped) && k < |popped|
    ensures Home(popped, popped[k].id) == k
  {
  }

  lemma EventAt(popped: seq<Batch>, k: nat, i: nat)
    requires k < |popped| && i < |popped[k].events|
    ensures var at := |Events(popped[..k])| + i;
            at < |Events(popped)| && Events(popped)[at] == popped[k].events[i]
  {
    EventsPrefix(popped, k);
    hide Events;
    var all := Events(popped[..k]) + popped[k].events;
    assert all[|Events(popped[..k])| + i] == popped[k].events[i];
  }

  lemma EntryBatch(s: State, slot: Slot) returns (k: nat)
    requires Inv(s) && slot in s.stored
    ensures k < |s.popped| && s.popped[k].id == slot.batch && slot.index < |s.popped[k].events|
    ensures s.popped[k].events[slot.index] == s.stored[slot]
    ensures WellFormedBatches(s.popped) && Events(s.popped) <= s.enqueued
  {
    hide WireSound, LedgerSound, WellFormedBatches, Counted, SentSound, Owned, Events;
    assert IsEntry(s.popped, slot, s.stored[slot]);
    k :| 0 <= k < |s.popped| && s.popped[k].id == slot.batch
         && slot.index < |s.popped[k].events| && s.popped[k].events[slot.index] == s.stored[slot];
  }

  lemma OriginSound(s: State, slot: Slot)
    requires Inv(s) && slot in s.stored
    ensures exists k :: 0 <= k < |s.popped| && s.popped[k].id == slot.batch
    ensures Origin(s.popped, slot) < |s.enqueued| && s.stored[slot] == s.enqueued[Origin(s.popped, slot)]
    ensures slot.index < |s.popped[Home(s.popped, slot.batch)].events|
  {
    hide Inv, Events, WellFormedBatches;
    var k := EntryBatch(s, slot);
    HomeIs(s.popped, k);
    EventAt(s.popped, k, slot.index);
  }

  /** However requests and answers are lost, delayed, repeated or reordered: every entry the server holds is
      the recorded event of its place, no recorded event is stored under two entries, and every batch that
      reached the sent branch is stored whole. */
  lemma ExactlyOnce(batchSize: int, steps: seq<Step>, t: State)
    requires batchSize <= MAX_BATCH_SIZE && Run(batchSize, INIT, steps, t)
    ensures |t.popped| == |t.phase|
    ensures forall slot :: slot in t.stored ==>
              && (exists k :: 0 <= k < |t.popped| && t.popped[k].id == slot.batch)
              && Origin(t.popped, slot) < |t.enqueued|
              && t.stored[slot] == t.enqueued[Origin(t.popped, slot)]
    ensures forall a, b :: a in t.stored && b in t.stored && a != b ==> Origin(t.popped, a) != Origin(t.popped, b)
    ensures forall k, i: nat {:trigger Slot(t.popped[k].id, i)} ::
              0 <= k < |t.popped| && BucketOf(t.phase[k]).SentEvents? && i < |t.popped[k].events| ==>
                Slot(t.popped[k].id, i) in t.stored && t.stored[Slot(t.popped[k].id, i)] == t.popped[k].events[i]
  {
    RunKeepsInv(batchSize, INIT, steps, t);
    forall slot | slot in t.stored
      ensures exists k :: 0 <= k < |t.popped| && t.popped[k].id == slot.batch
      ensures Origin(t.popped, slot) < |t.enqueued| && t.stored[slot] == t.enqueued[Origin(t.popped, slot)]
    {
      OriginSound(t, slot);
    }
    forall a, b | a in t.stored && b in t.stored && a != b
      ensures Origin(t.popped, a) != Origin(t.popped, b)
    {
      DistinctOrigins(t, a, b);
    }
    forall k, i: nat | 0 <= k < |t.popped| && BucketOf(t.phase[k]).SentEvents? && i < |t.popped[k].events|
      ensures Slot(t.popped[k].id, i) in t.stored && t.stored[Slot(t.popped[k].id, i)] == t.popped[k].events[i]
    {
      SentIsStored(t, k, i);
    }
  }

  lemma DistinctOrigins(s: State, a: Slot, b: Slot)
    requires Inv(s) && a in s.stored && b in s.stored && a != b
    ensures exists k :: 0 <= k < |s.popped| && s.popped[k].id == a.batch
    ensures exists k :: 0 <= k < |s.popped| && s.popped[k].id == b.batch
    ensures Origin(s.popped, a) != Origin(s.popped, b)
  {
    hide Inv, Events;
    OriginSound(s, a);
    OriginSound(s, b);
    var j, k := Home(s.popped, a.batch), Home(s.popped, b.batch);
    if j < k {
      EventsMonotone(s.popped, j, k);
    } else if k < j {
      EventsMonotone(s.popped, k, j);
    }
  }

  lemma SentIsStored(s: State, k: nat, i: nat)
    requires Inv(s) && k < |s.popped| && BucketOf(s.phase[k]).SentEvents? && i < |s.popped[k].events|
    ensures var slot := Slot(s.popped[k].id, i);
            slot in s.stored && s.stored[slot] == s.popped[k].events[i]
  {
    var id := s.popped[k].id;
    assert IsPayload(s.popped, id, s.ledger[id]) && WholeBatch(id, |s.ledger[id]|, s.stored);
    var j :| 0 <= j < |s.popped| && s.popped[j].id == id && s.popped[j].events == s.ledger[id];
    assert j == k;
    assert IsEntry(s.popped, Slot(id, i), s.stored[Slot(id, i)]);
  }

  // ----- Back-pressure -----

  /** The eager flush keeps up with its own events: while only `record` enqueues, the queue stays below the
      batch threshold in every state, whatever the flusher and the network do. */
  lemma {:induction false} RecordsNeverBacklog(batchSize: int, s: State, steps: seq<Step>, t: State)
    requires batchSize > 0 && |s.queue| < batchSize && Run(batchSize, s, steps, t)
    requires forall k :: 0 <= k < |steps| ==> !steps[k].Put?
    ensures |t.queue| < batchSize
    decreases |steps|
  {
    if steps != [] {
      RecordsNeverBacklog(batchSize, Apply(batchSize, s, steps[0]), steps[1..], t);
    }
  }

  // ----- Shutdown -----

  predicate Enqueues(step: Step) {
    step.Put? || step.Record?
  }

  lemma {:induction false} QueueStaysEmpty(batchSize: int, s: State, steps: seq<Step>, t: State)
    requires s.queue == [] && s.shutdown.Drained? && Run(batchSize, s, steps, t)
    requires forall k :: 0 <= k < |steps| ==> !Enqueues(steps[k])
    ensures t.queue == [] && t.shutdown.Drained?
    decreases |steps|
  {
    if steps != [] {
      var next := Apply(batchSize, s, steps[0]);
      assert next.queue == [] && next.shutdown.Drained?;
      QueueStaysEmpty(batchSize, next, steps[1..], t);
    }
  }

  /** Some batch was given up by the cancelled flusher. */
  ghost predicate AnyAbandoned(t: State) {
    exists k :: 0 <= k < |t.phase| && t.phase[k].Abandoned?
  }

  lemma {:induction false} AbandonedHasEvents(popped: seq<Batch>, phase: seq<Phase>)
    requires |popped| == |phase| && forall k :: 0 <= k < |popped| ==> 0 < |popped[k].events|
    ensures Tally(popped, phase, AbandonedEvents) > 0 <==> exists k :: 0 <= k < |phase| && phase[k].Abandoned?
  {
    if popped != [] {
      var n := |popped| - 1;
      AbandonedHasEvents(popped[..n], phase[..n]);
      assert forall k :: 0 <= k < n ==> phase[..n][k] == phase[k];
    }
  }

  lemma DrainedIsSettled(t: State)
    requires Inv(t) && t.queue == [] && t.shutdown.Drained?
    requires forall k :: 0 <= k < |t.popped| && t.popped[k].owner.Producer? ==> !InFlight(t.phase[k])
    ensures t.enqueued == Events(t.popped) && forall k :: 0 <= k < |t.popped| ==> Final(t.phase[k])
    ensures forall j, k | 0 <= j < k < |t.popped| :: !(t.phase[j].Abandoned? && t.phase[k].Abandoned?)
    ensures HonestCounts(t.popped, t.phase) ==> (t.sent + t.failed == |t.enqueued| <==> !AnyAbandoned(t))
  {
    assert Events(t.popped) + [] == Events(t.popped);
    AbandonedHasEvents(t.popped, t.phase);
    hide WellFormedBatches, WireSound, LedgerSound, StoreSound, SentSound;
    TalliesCoverBatches(t.popped, t.phase);
    NothingOpen(t.popped, t.phase);
    if HonestCounts(t.popped, t.phase) {
      HonestReported(t.popped, t.phase);
    }
    hide Tally, Reported, Events, HonestCounts;
  }

  lemma InitInv()
    ensures Inv(INIT)
  {
  }

  lemma InvLengths(s: State)
    requires Inv(s)
    ensures |s.popped| == |s.phase|
  {
  }

  lemma DrainEndEmpties(batchSize: int, s: State)
    requires |s.popped| == |s.phase| && Enabled(s, DrainEnd)
    ensures var t := Apply(batchSize, s, DrainEnd);
            && t.queue == [] && t.shutdown.Drained? && |t.popped| == |t.phase|
            && (AnyAbandoned(t) <==> AnyAbandoned(s))
  {
  }

  /** After the cancellation nothing more is abandoned. */
  lemma {:induction false} AbandonedStays(batchSize: int, s: State, steps: seq<Step>, t: State)
    requires |s.popped| == |s.phase| && !s.shutdown.Open? && Run(batchSize, s, steps, t)
    ensures AnyAbandoned(t) <==> AnyAbandoned(s)
    decreases |steps|
  {
    if steps != [] {
      var next := Apply(batchSize, s, steps[0]);
      StepAbandons(batchSize, s, steps[0]);
      StepExtendsPhases(batchSize, s, steps[0]);
      hide AnyAbandoned, Apply, Enabled;
      AbandonedStays(batchSize, next, steps[1..], t);
    }
  }

  lemma StepAbandons(batchSize: int, s: State, step: Step)
    requires |s.popped| == |s.phase| && !s.shutdown.Open? && Enabled(s, step)
    ensures !Apply(batchSize, s, step).shutdown.Open?
    ensures AnyAbandoned(Apply(batchSize, s, step)) <==> AnyAbandoned(s)
  {
    var t := Apply(batchSize, s, step);
    StepExtendsPhases(batchSize, s, step);
    forall k | 0 <= k < |t.phase| && t.phase[k].Abandoned?
      ensures k < |s.phase| && s.phase[k].Abandoned?
    {
    }
    if k :| 0 <= k < |s.phase| && s.phase[k].Abandoned? {
      assert Final(s.phase[k]) && t.phase[k] == s.phase[k];
    }
    hide Judge;
  }

  lemma CancelAbandonsIff(batchSize: int, s: State)
    requires Inv(s) && Enabled(s, Cancel)
    ensures AnyAbandoned(Apply(batchSize, s, Cancel)) <==> Busy(s, Flusher)
    ensures |Apply(batchSize, s, Cancel).popped| == |Apply(batchSize, s, Cancel).phase|
    ensures !Apply(batchSize, s, Cancel).shutdown.Open?
  {
    var t := Apply(batchSize, s, Cancel);
    assert t.phase == Abandon(s.popped, s.phase);
    if k :| 0 <= k < |t.phase| && t.phase[k].Abandoned? {
      assert !s.phase[k].Abandoned?;
    }
    if k :| 0 <= k < |s.popped| && k < |s.phase| && s.popped[k].owner == Flusher && InFlight(s.phase[k]) {
      assert t.phase[k].Abandoned?;
    }
    hide WellFormedBatches, WireSound, LedgerSound, StoreSound, SentSound, Counted, Conserved;
  }

  /** A batch is neither sent nor failed for good exactly when the flusher was posting at the moment it was
      cancelled. */
  lemma AbandonedIffBusy(batchSize: int, before: seq<Step>, s: State, after: seq<Step>, t: State)
    requires batchSize <= MAX_BATCH_SIZE && Run(batchSize, INIT, before, s)
    requires |s.popped| == |s.phase| && Enabled(s, Cancel) && Run(batchSize, Apply(batchSize, s, Cancel), after, t)
    ensures AnyAbandoned(t) <==> Busy(s, Flusher)
  {
    InitInv();
    RunKeepsInv(batchSize, INIT, before, s);
    CancelAbandonsIff(batchSize, s);
    hide AnyAbandoned, Busy, Inv, Apply, Enabled;
    AbandonedStays(batchSize, Apply(batchSize, s, Cancel), after, t);
  }

  /** Shutdown: the flusher is cancelled in `c`, the drain ends in `s`, and afterwards producers enqueue nothing
      and their own eager flushes return. */
  ghost predicate ShutDown(batchSize: int, before: seq<Step>, c: State, draining: seq<Step>, s: State,
                           after: seq<Step>, t: State)
  {
    && batchSize <= MAX_BATCH_SIZE && Run(batchSize, INIT, before, c)
    && |c.popped| == |c.phase| && Enabled(c, Cancel) && Run(batchSize, Apply(batchSize, c, Cancel), draining, s)
    && |s.popped| == |s.phase| && Enabled(s, DrainEnd) && Run(batchSize, Apply(batchSize, s, DrainEnd), after, t)
    && (forall k :: 0 <= k < |after| ==> !Enqueues(after[k]))
    && (forall k :: 0 <= k < |t.popped| && k < |t.phase| && t.popped[k].owner.Producer? ==> !InFlight(t.phase[k]))
  }

  /** Then nothing is queued or in flight and every enqueued event went out in exactly one batch. Every batch is
      sent or failed exactly when the flusher was idle at the cancellation, and otherwise all but one are; and if
      the server counts honestly, the counters show it: they add up to everything enqueued exactly then. */
  lemma ShutdownSettlesEverything(batchSize: int, before: seq<Step>, c: State, draining: seq<Step>, s: State,
                                  after: seq<Step>, t: State)
    requires ShutDown(batchSize, before, c, draining, s, after, t)
    ensures t.queue == [] && t.enqueued == Events(t.popped)
    ensures |t.popped| == |t.phase| && forall k :: 0 <= k < |t.popped| ==> Final(t.phase[k])
    ensures forall j, k | 0 <= j < k < |t.popped| :: !(t.phase[j].Abandoned? && t.phase[k].Abandoned?)
    ensures (forall k :: 0 <= k < |t.phase| ==> t.phase[k].Settled?) <==> !Busy(c, Flusher)
    ensures HonestCounts(t.popped, t.phase) ==> (t.sent + t.failed == |t.enqueued| <==> !Busy(c, Flusher))
  {
    hide Inv, Run, Enabled, Apply, Tally, Events, HonestCounts, Busy;
    InitInv();
    RunKeepsInv(batchSize, INIT, before, c);
    var cancelled := Apply(batchSize, c, Cancel);
    StepKeepsInv(batchSize, c, Cancel);
    CancelAbandonsIff(batchSize, c);
    RunKeepsInv(batchSize, cancelled, draining, s);
    AbandonedStays(batchSize, cancelled, draining, s);
    DrainSettles(batchSize, s, after, t);
    assert AnyAbandoned(t) <==> Busy(c, Flusher);
    assert forall k :: 0 <= k < |t.phase| ==> Final(t.phase[k]);
  }

  lemma DrainSettles(batchSize: int, s: State, after: seq<Step>, t: State)
    requires batchSize <= MAX_BATCH_SIZE && Inv(s) && Enabled(s, DrainEnd)
    requires |s.popped| == |s.phase| && Run(batchSize, Apply(batchSize, s, DrainEnd), after, t)
    requires forall k :: 0 <= k < |after| ==> !Enqueues(after[k])
    requires forall k :: 0 <= k < |t.popped| && k < |t.phase| && t.popped[k].owner.Producer? ==> !InFlight(t.phase[k])
    ensures |t.popped| == |t.phase| && t.queue == [] && (AnyAbandoned(t) <==> AnyAbandoned(s))
    ensures t.enqueued == Events(t.popped) && forall k :: 0 <= k < |t.popped| ==> Final(t.phase[k])
    ensures forall j, k | 0 <= j < k < |t.popped| :: !(t.phase[j].Abandoned? && t.phase[k].Abandoned?)
    ensures HonestCounts(t.popped, t.phase) ==> (t.sent + t.failed == |t.enqueued| <==> !AnyAbandoned(t))
  {
    hide Inv, Run, Enabled, Apply, Tally, Events, HonestCounts, AnyAbandoned;
    var mid := Apply(batchSize, s, DrainEnd);
    DrainEndEmpties(batchSize, s);
    StepKeepsInv(batchSize, s, DrainEnd);
    RunKeepsInv(batchSize, mid, after, t);
    InvLengths(t);
    QueueStaysEmpty(batchSize, mid, after, t);
    AbandonedStays(batchSize, mid, after, t);
    DrainedIsSettled(t);
  }

  lemma {:induction false} NothingOpen(popped: seq<Batch>, phase: seq<Phase>)
    requires |popped| == |phase| && forall k :: 0 <= k < |popped| ==> Final(phase[k])
    ensures Tally(popped, phase, OpenEvents) == 0
  {
    if popped != [] {
      NothingOpen(popped[..|popped| - 1], phase[..|popped| - 1]);
    }
  }

  lemma RunFrom(batchSize: int, s: State, step: Step, rest: seq<Step>, t: State)
    requires |s.popped| == |s.phase| && Enabled(s, step) && Run(batchSize, Apply(batchSize, s, step), rest, t)
    ensures Run(batchSize, s, [step] + rest, t)
  {
    assert ([step] + rest)[1..] == rest;
  }

  lemma CancelledDrain(s: State, id: BatchId, e: Event) returns (t: State)
    requires s.queue == [] && s.popped == [Batch(id, [e], Flusher)] && s.phase == [Posting(1)] && s.shutdown.Open?
    ensures Run(50, s, [Cancel, DrainEnd], t)
    ensures t.shutdown.Drained? && t.queue == [] && t.sent == s.sent && t.failed == s.failed
    ensures t.stored == s.stored && t.ledger == s.ledger
  {
    var mid := Apply(50, s, Cancel);
    assert mid.phase == [Abandoned];
    t := Apply(50, mid, DrainEnd);
    assert Run(50, t, [], t);
    RunFrom(50, mid, DrainEnd, [], t);
    assert [DrainEnd] + [] == [DrainEnd];
    RunFrom(50, s, Cancel, [DrainEnd], t);
    assert [Cancel] + [DrainEnd] == [Cancel, DrainEnd];
  }

  /** The exception is real: a run in which the server stores a batch and answers it, yet the client, cancelled
      first, counts it neither sent nor failed. */
  lemma CancelledBatchCanBeStored(e: Event, id: BatchId) returns (steps: seq<Step>, t: State)
    ensures Run(50, INIT, steps, t)
    ensures t.shutdown.Drained? && t.queue == [] && t.sent == 0 && t.failed == 0
    ensures Slot(id, 0) in t.stored && t.stored[Slot(id, 0)] == e && id in t.ledger
  {
    var s1 := Apply(50, INIT, Put(e));
    var s2 := Apply(50, s1, FlusherTick(id));
    var s3 := Apply(50, s2, Deliver(0, true, 0));
    assert s1.queue == [e] && [e][..1] == [e];
    assert s2.popped == [Batch(id, [e], Flusher)] && s2.phase == [Posting(1)] && s2.wire == [Request(id, [e])];
    assert Slot(id, 0) in s3.stored && s3.stored[Slot(id, 0)] == e && id in s3.ledger;
    t := CancelledDrain(s3, id, e);
    steps := [Cancel, DrainEnd];
    hide Run;
    RunFrom(50, s2, Deliver(0, true, 0), steps, t);
    steps := [Deliver(0, true, 0)] + steps;
    RunFrom(50, s1, FlusherTick(id), steps, t);
    steps := [FlusherTick(id)] + steps;
    RunFrom(50, INIT, Put(e), steps, t);
    steps := [Put(e)] + steps;
  }

  // ----- The session is one of these systems -----

  lemma {:induction false} RunConcat(batchSize: int, a: State, xs: seq<Step>, b: State, ys: seq<Step>, c: State)
    requires Run(batchSize, a, xs, b) && Run(batchSize, b, ys, c)
    ensures Run(batchSize, a, xs + ys, c)
    decreases |xs|
  {
    hide Enabled, Apply;
    if xs == [] {
      assert xs + ys == ys;
    } else {
      RunConcat(batchSize, Apply(batchSize, a, xs[0]), xs[1..], b, ys, c);
      assert (xs + ys)[1..] == xs[1..] + ys;
    }
  }

  /** One attempt of batch `k`: its request reaches the server, and the reply comes back. */
  lemma AttemptRuns(batchSize: int, s: State, k: nat, w: nat, reply: Reply, elapsed: real) returns (t: State)
    requires |s.popped| == |s.phase| && k < |s.popped| && s.phase[k].Posting?
    requires w < |s.wire| && s.wire[w] == Request(s.popped[k].id, s.popped[k].events)
    ensures Run(batchSize, s, [Deliver(w, true, 0), Answer(k, reply, elapsed)], t)
    ensures var n := |s.popped[k].events|;
            var v := Judge(reply, s.phase[k].attempt, elapsed, n);
            t == s.(phase := s.phase[k := if v.Retry? then Backoff(s.phase[k].attempt) else Settled(v)],
                    sent := s.sent + SentBy(v), failed := s.failed + FailedBy(v, n),
                    ledger := t.ledger, stored := t.stored)
  {
    hide Judge;
    var delivered := Apply(batchSize, s, Deliver(w, true, 0));
    assert s.popped[k].id in delivered.ledger;
    t := Apply(batchSize, delivered, Answer(k, reply, elapsed));
    TwoSteps(batchSize, s, Deliver(w, true, 0), delivered, Answer(k, reply, elapsed), t);
  }

  lemma TwoSteps(batchSize: int, s: State, a: Step, mid: State, b: Step, t: State)
    requires |s.popped| == |s.phase| && Enabled(s, a) && mid == Apply(batchSize, s, a)
    requires |mid.popped| == |mid.phase| && Enabled(mid, b) && t == Apply(batchSize, mid, b)
    ensures Run(batchSize, s, [a, b], t)
  {
    hide Enabled, Apply;
    assert Run(batchSize, t, [], t);
    RunFrom(batchSize, mid, b, [], t);
    assert [b] + [] == [b] && [a] + [b] == [a, b];
    RunFrom(batchSize, s, a, [b], t);
  }

  /** What posting batch `k` from attempt `attempt` on does to the state, but for what the server keeps. */
  ghost predicate Posted(s: State, t: State, k: nat, net: Network, attempt: nat, clock: real)
    requires k < |s.popped| && k < |s.phase| && 1 <= attempt <= MAX_RETRIES
  {
    var b := s.popped[k];
    var v := LastVerdict(net, |b.events|, attempt, clock);
    t == s.(phase := s.phase[k := Settled(v)], sent := s.sent + SentBy(v), failed := s.failed + FailedBy(v, |b.events|),
            wire := s.wire + Repeated(Request(b.id, b.events), AttemptsLeft(net, |b.events|, attempt, clock) - 1),
            ledger := t.ledger, stored := t.stored)
  }

  lemma RepeatedMore(r: Request, n: nat)
    requires n > 0
    ensures [r] + Repeated(r, n - 1) == Repeated(r, n) && Repeated(r, 0) == []
  {
  }

  /** The retry loop of one batch, on any network, is a run of the protocol: the same requests on the wire, the
      same verdict, the same counters. */
  lemma {:induction false} BatchRuns(batchSize: int, s: State, k: nat, w: nat, net: Network, attempt: nat, clock: real)
    returns (steps: seq<Step>, t: State)
    requires |s.popped| == |s.phase| && k < |s.popped| && s.phase[k] == Posting(attempt) && 1 <= attempt <= MAX_RETRIES
    requires w < |s.wire| && s.wire[w] == Request(s.popped[k].id, s.popped[k].events)
    ensures Run(batchSize, s, steps, t) && Posted(s, t, k, net, attempt, clock)
    decreases MAX_RETRIES - attempt
  {
    hide Judge, Run, LastVerdict, AttemptsLeft, Repeated;
    var b := s.popped[k];
    var n := |b.events|;
    var ex := net(attempt);
    var start := clock + ex.lag;
    var v := Judge(ex.reply, attempt, start, n);
    var answered := AttemptRuns(batchSize, s, k, w, ex.reply, start);
    ScheduleStep(net, n, attempt, clock);
    steps := [Deliver(w, true, 0), Answer(k, ex.reply, start)];
    if !v.Retry? {
      t := answered;
      RepeatedMore(Request(b.id, b.events), 1);
      assert s.wire + [] == s.wire;
    } else {
      var woken := Wakes(batchSize, answered, k);
      RunConcat(batchSize, s, steps, answered, [Wake(k)], woken);
      var more;
      more, t := BatchRuns(batchSize, woken, k, w, net, attempt + 1, start + ex.requestTime + v.delay);
      RunConcat(batchSize, s, steps + [Wake(k)], woken, more, t);
      steps := steps + [Wake(k)] + more;
      SomeAttempt(net, n, attempt + 1, start + ex.requestTime + v.delay);
      OneMoreRequest(s, woken, t, k, net, attempt, clock, start + ex.requestTime + v.delay);
    }
  }

  lemma SomeAttempt(net: Network, n: nat, attempt: nat, clock: real)
    requires 1 <= attempt <= MAX_RETRIES
    ensures AttemptsLeft(net, n, attempt, clock) >= 1
  {
    ScheduleDecides(net, n, attempt, clock);
  }

  lemma Wakes(batchSize: int, s: State, k: nat) returns (t: State)
    requires |s.popped| == |s.phase| && k < |s.popped| && s.phase[k].Backoff?
    ensures Run(batchSize, s, [Wake(k)], t)
    ensures t == s.(phase := s.phase[k := Posting(s.phase[k].attempt + 1)],
                    wire := s.wire + [Request(s.popped[k].id, s.popped[k].events)])
  {
    t := Apply(batchSize, s, Wake(k));
    assert Run(batchSize, t, [], t);
    RunFrom(batchSize, s, Wake(k), [], t);
    assert [Wake(k)] + [] == [Wake(k)];
  }

  lemma OneMoreRequest(s: State, woken: State, t: State, k: nat, net: Network, attempt: nat, clock: real, next: real)
    requires k < |s.popped| && k < |s.phase| && 1 <= attempt < MAX_RETRIES
    requires var b := s.popped[k];
             && woken == s.(phase := s.phase[k := Posting(attempt + 1)], wire := s.wire + [Request(b.id, b.events)],
                            ledger := woken.ledger, stored := woken.stored)
             && AttemptsLeft(net, |b.events|, attempt + 1, next) >= 1
             && AttemptsLeft(net, |b.events|, attempt, clock) == 1 + AttemptsLeft(net, |b.events|, attempt + 1, next)
             && LastVerdict(net, |b.events|, attempt, clock) == LastVerdict(net, |b.events|, attempt + 1, next)
    requires Posted(woken, t, k, net, attempt + 1, next)
    ensures Posted(s, t, k, net, attempt, clock)
  {
    hide LastVerdict, AttemptsLeft, Repeated;
    var b := s.popped[k];
    var r, m := Request(b.id, b.events), AttemptsLeft(net, |b.events|, attempt + 1, next);
    RepeatedMore(r, m);
    assert s.wire + [r] + Repeated(r, m - 1) == s.wire + Repeated(r, m);
    assert s.phase[k := Posting(attempt + 1)][k := Settled(LastVerdict(net, |b.events|, attempt, clock))]
        == s.phase[k := Settled(LastVerdict(net, |b.events|, attempt, clock))];
  }

  /** What the session object does in `FlushOnce`, the concurrent system can do: a run that takes the same events
      off the queue, puts the same requests on the wire and moves the counters alike, whatever the network. */
  lemma FlushRuns(batchSize: int, s: State, id: BatchId, net: Network) returns (steps: seq<Step>, t: State)
    requires Inv(s) && Enabled(s, FlusherTick(id)) && PopCount(batchSize, |s.queue|) > 0
    ensures Run(batchSize, s, steps, t)
    ensures var n := PopCount(batchSize, |s.queue|);
            var v := BatchVerdict(net, n);
            && t.queue == s.queue[n..] && t.popped == s.popped + [Batch(id, s.queue[..n], Flusher)]
            && t.sent == s.sent + SentBy(v) && t.failed == s.failed + FailedBy(v, n)
            && t.wire == s.wire + Repeated(Request(id, s.queue[..n]), AttemptsLeft(net, n, 1, 0.0))
  {
    hide Run, LastVerdict, AttemptsLeft, Repeated, Inv;
    InvLengths(s);
    var n := PopCount(batchSize, |s.queue|);
    var popped := Apply(batchSize, s, FlusherTick(id));
    var k, r := |s.popped|, Request(id, s.queue[..n]);
    assert popped.phase[k] == Posting(1) && popped.popped[k] == Batch(id, s.queue[..n], Flusher);
    assert popped.wire[|s.wire|] == r;
    steps, t := BatchRuns(batchSize, popped, k, |s.wire|, net, 1, 0.0);
    SomeAttempt(net, n, 1, 0.0);
    RunFrom(batchSize, s, FlusherTick(id), steps, t);
    steps := [FlusherTick(id)] + steps;
    FirstRequest(s.wire, r, net, n);
  }

  lemma FirstRequest(wire: seq<Request>, r: Request, net: Network, n: nat)
    requires AttemptsLeft(net, n, 1, 0.0) >= 1
    ensures wire + [r] + Repeated(r, AttemptsLeft(net, n, 1, 0.0) - 1)
         == wire + Repeated(r, AttemptsLeft(net, n, 1, 0.0))
  {
    hide AttemptsLeft;
    RepeatedMore(r, AttemptsLeft(net, n, 1, 0.0));
  }
}

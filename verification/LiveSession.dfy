/**
 The live session as its methods run it: the bounded event queue, the batches popped from it and the
 POST loop with its counters. One task at a time runs here; LiveProtocol interleaves them.
 */
module Session {
  import opened Options
  import opened RetryPolicy

  const MAX_BATCH_SIZE: nat := 1000
  const MAX_QUEUE_SIZE: nat := 50000

  datatype Event =
    | TestResult(testName: string, status: string)
    | Log(message: string)
    | Metric(name: string)
    | LiveHeartbeat(atMs: int)
    | RunComplete

  datatype BatchId = BatchId(uuid: string)

  /** The JSON payload of a POST: built once per batch, before the retry loop. */
  datatype Request = Request(id: BatchId, events: seq<Event>)

  /** How many events `get_nowait` yields before `limit` is reached or the queue is empty. A limit that is
      not positive yields none (`range` of it is empty). */
  function PopCount(limit: int, queued: nat): (n: nat)
    ensures n <= queued && (limit <= 0 ==> n == 0)
    ensures limit > 0 ==> n <= limit && (n < queued ==> n == limit)
  {
    if limit <= 0 then 0 else if limit < queued then limit else queued
  }

  /** The batches `_flush_all` posts for a queue. */
  function Chunks(q: seq<Event>): seq<seq<Event>> {
    if q == [] then []
    else
      var n := PopCount(MAX_BATCH_SIZE, |q|);
      [q[..n]] + Chunks(q[n..])
  }

  function Flatten(batches: seq<seq<Event>>): seq<Event> {
    if batches == [] then [] else batches[0] + Flatten(batches[1..])
  }

  /** Draining in chunks loses and reorders nothing, and no chunk is empty or above the cap. */
  lemma {:induction false} ChunksCoverQueue(q: seq<Event>)
    ensures Flatten(Chunks(q)) == q
    ensures forall b :: b in Chunks(q) ==> 0 < |b| <= MAX_BATCH_SIZE
  {
    if q != [] {
      var n := PopCount(MAX_BATCH_SIZE, |q|);
      ChunksCoverQueue(q[n..]);
      assert Chunks(q)[1..] == Chunks(q[n..]);
      assert q[..n] + q[n..] == q;
    }
  }

  /** Every chunk but the last is full: the drain makes as few batches as the cap allows. */
  lemma {:induction false} ChunksAreFull(q: seq<Event>)
    ensures forall k :: 0 <= k < |Chunks(q)| - 1 ==> |Chunks(q)[k]| == 1000
    ensures |Chunks(q)| == (|q| + 999) / 1000
  {
    if q != [] {
      var n := PopCount(MAX_BATCH_SIZE, |q|);
      ChunksAreFull(q[n..]);
      var rest := Chunks(q[n..]);
      assert Chunks(q) == [q[..n]] + rest;
      assert rest != [] ==> q[n..] != [];
      assert forall k :: 1 <= k < |Chunks(q)| ==> Chunks(q)[k] == rest[k - 1];
    }
  }

  function Repeated(r: Request, n: nat): seq<Request> {
    seq(n, _ => r)
  }

  /** What each batch meets on the network: the `b`-th batch posted, then the attempt. */
  type Environment = nat -> Network

  function BatchVerdict(net: Network, count: nat): Verdict {
    LastVerdict(net, count, 1, 0.0)
  }

  function SentBy(v: Verdict): int {
    if v.Sent? then v.accepted else 0
  }

  function FailedBy(v: Verdict, count: nat): nat {
    if v.Failed? then count else 0
  }

  /** The counters after posting `batches` in order, the first of them being batch number `b`. */
  function TotalSent(env: Environment, b: nat, batches: seq<seq<Event>>): int
    decreases |batches|
  {
    if batches == [] then 0
    else SentBy(BatchVerdict(env(b), |batches[0]|)) + TotalSent(env, b + 1, batches[1..])
  }

  function TotalFailed(env: Environment, b: nat, batches: seq<seq<Event>>): nat
    decreases |batches|
  {
    if batches == [] then 0
    else FailedBy(BatchVerdict(env(b), |batches[0]|), |batches[0]|) + TotalFailed(env, b + 1, batches[1..])
  }

  /** Every request those batches make: each batch under its own id, as often as it is tried. */
  function TotalPosts(env: Environment, ids: nat -> BatchId, b: nat, batches: seq<seq<Event>>): seq<Request>
    decreases |batches|
  {
    if batches == [] then []
    else
      Repeated(Request(ids(b), batches[0]), AttemptsLeft(env(b), |batches[0]|, 1, 0.0))
      + TotalPosts(env, ids, b + 1, batches[1..])
  }

  lemma TotalsStep(env: Environment, b: nat, batches: seq<seq<Event>>)
    requires batches != []
    ensures var v := BatchVerdict(env(b), |batches[0]|);
            && TotalSent(env, b, batches) == SentBy(v) + TotalSent(env, b + 1, batches[1..])
            && TotalFailed(env, b, batches) == FailedBy(v, |batches[0]|) + TotalFailed(env, b + 1, batches[1..])
  {
  }

  lemma NothingPosted(env: Environment, ids: nat -> BatchId, b: nat)
    ensures TotalSent(env, b, []) == 0 && TotalFailed(env, b, []) == 0 && TotalPosts(env, ids, b, []) == []
  {
  }

  lemma PostsStep(env: Environment, ids: nat -> BatchId, b: nat, batches: seq<seq<Event>>, posts: seq<Request>)
    requires batches != []
    ensures posts + Repeated(Request(ids(b), batches[0]), AttemptsLeft(env(b), |batches[0]|, 1, 0.0))
            + TotalPosts(env, ids, b + 1, batches[1..])
         == posts + TotalPosts(env, ids, b, batches)
  {
    hide Repeated, AttemptsLeft;
  }

  /** A server that answers every accepted batch with its length makes the two counters add up to the
      number of events posted, whatever else the network does. */
  lemma {:induction false} CountersCoverBatches(env: Environment, b: nat, batches: seq<seq<Event>>)
    requires forall k: nat :: k < |batches| ==>
               var v := BatchVerdict(env(b + k), |batches[k]|); v.Sent? ==> v.accepted == |batches[k]|
    ensures TotalSent(env, b, batches) + TotalFailed(env, b, batches) == |Flatten(batches)|
    decreases |batches|
  {
    if batches != [] {
      var v := BatchVerdict(env(b + 0), |batches[0]|);
      forall k: nat | k < |batches[1..]|
        ensures var w := BatchVerdict(env(b + 1 + k), |batches[1..][k]|); w.Sent? ==> w.accepted == |batches[1..][k]|
      {
        assert batches[1..][k] == batches[k + 1];
        assert b + (k + 1) == b + 1 + k;
      }
      CountersCoverBatches(env, b + 1, batches[1..]);
    }
  }

  class LiveSession {
    const env: Environment
    const ids: nat -> BatchId
    const batchSize: int
    var queue: seq<Event>
    var sent: int
    var failed: nat
    /** Every POST made so far, and how many batches they belong to. */
    var posts: seq<Request>
    var batches: nat

    constructor (env: Environment, ids: nat -> BatchId, batchSize: int)
      ensures this.env == env && this.ids == ids && this.batchSize == batchSize
      ensures queue == [] && sent == 0 && failed == 0 && posts == [] && batches == 0
    {
      this.env, this.ids, this.batchSize := env, ids, batchSize;
      queue, sent, failed, posts, batches := [], 0, 0, [], 0;
    }

    /** The pop loop of `_flush_once` and `_flush_all`: up to `limit` events from the head, in order. */
    method PopBatch(limit: int) returns (batch: seq<Event>)
      modifies this`queue
      ensures batch == old(queue)[..PopCount(limit, |old(queue)|)]
      ensures queue == old(queue)[PopCount(limit, |old(queue)|)..]
      ensures batch + queue == old(queue) && (limit <= 0 ==> batch == [])
      ensures limit > 0 ==> |batch| <= limit && (queue == [] || |batch| == limit)
    {
      batch := [];
      var k := 0;
      while k < limit && queue != []
        invariant |batch| == k <= |old(queue)| && (k > 0 ==> k <= limit)
        invariant batch == old(queue)[..k] && queue == old(queue)[k..]
        decreases |queue|
      {
        batch, queue := batch + [queue[0]], queue[1..];
        k := k + 1;
      }
    }

    /** The retry loop of one batch. Every attempt posts the same payload, the batch is settled exactly
        once, and the counters move as its last attempt decides. */
    method PostBatch(events: seq<Event>)
      modifies this`sent, this`failed, this`posts, this`batches
      ensures posts == old(posts) + Repeated(Request(ids(old(batches)), events),
                                             AttemptsLeft(env(old(batches)), |events|, 1, 0.0))
      ensures var v := BatchVerdict(env(old(batches)), |events|);
              sent == old(sent) + SentBy(v) && failed == old(failed) + FailedBy(v, |events|)
      ensures batches == old(batches) + 1
      ensures var net := env(old(batches));
              var last := net(AttemptsLeft(net, |events|, 1, 0.0)).reply;
              if Accepting(last) then sent == old(sent) + Counted(last, |events|) && failed == old(failed)
              else sent == old(sent) && failed == old(failed) + |events|
    {
      hide LastVerdict, AttemptsLeft, Judge;
      LastReplyDecides(env(batches), |events|, 1, 0.0);
      var payload := Request(ids(batches), events);
      var net := env(batches);
      batches := batches + 1;
      ghost var n, last := AttemptsLeft(net, |events|, 1, 0.0), BatchVerdict(net, |events|);
      var attempt, clock, settled := 1, 0.0, false;
      while attempt <= MAX_RETRIES && !settled
        invariant batches == old(batches) + 1
        invariant !settled ==> 1 <= attempt <= MAX_RETRIES
                               && attempt - 1 + AttemptsLeft(net, |events|, attempt, clock) == n
                               && LastVerdict(net, |events|, attempt, clock) == last
        invariant !settled ==> sent == old(sent) && failed == old(failed)
                               && posts == old(posts) + Repeated(payload, attempt - 1)
        invariant settled ==> posts == old(posts) + Repeated(payload, n)
                              && sent == old(sent) + SentBy(last) && failed == old(failed) + FailedBy(last, |events|)
        decreases MAX_RETRIES + 1 - attempt, !settled
      {
        var ex := net(attempt);
        var elapsed := clock + ex.lag;
        posts := posts + [payload];
        ScheduleStep(net, |events|, attempt, clock);
        match Judge(ex.reply, attempt, elapsed, |events|) {
          case Sent(accepted) =>
            sent, settled := sent + accepted, true;
          case Failed =>
            failed, settled := failed + |events|, true;
          case Retry(delay) =>
            clock, attempt := elapsed + ex.requestTime + delay, attempt + 1;
        }
      }
    }

    /** `record` on a queue with room: enqueue, then flush eagerly at the batch threshold. */
    method Record(event: Event)
      requires |queue| < MAX_QUEUE_SIZE
      modifies this
      ensures var q := old(queue) + [event];
              var n := if |q| >= batchSize then PopCount(batchSize, |q|) else 0;
              && queue == q[n..]
              && batches == old(batches) + (if n > 0 then 1 else 0)
              && (n == 0 ==> sent == old(sent) && failed == old(failed) && posts == old(posts))
              && (n > 0 ==>
                    var v := BatchVerdict(env(old(batches)), n);
                    && sent == old(sent) + SentBy(v) && failed == old(failed) + FailedBy(v, n)
                    && posts == old(posts) + Repeated(Request(ids(old(batches)), q[..n]),
                                                      AttemptsLeft(env(old(batches)), n, 1, 0.0)))
      ensures var before := |old(queue)| + 1;
              |queue| == if before < batchSize || batchSize <= 0 then before else before - batchSize
    {
      queue := queue + [event];
      if |queue| >= batchSize {
        FlushOnce();
      }
    }

    method FlushOnce()
      modifies this
      ensures var n := PopCount(batchSize, |old(queue)|);
              && queue == old(queue)[n..]
              && batches == old(batches) + (if n > 0 then 1 else 0)
              && (n == 0 ==> sent == old(sent) && failed == old(failed) && posts == old(posts))
              && (n > 0 ==>
                    var v := BatchVerdict(env(old(batches)), n);
                    && sent == old(sent) + SentBy(v) && failed == old(failed) + FailedBy(v, n)
                    && posts == old(posts) + Repeated(Request(ids(old(batches)), old(queue[..n])),
                                                      AttemptsLeft(env(old(batches)), n, 1, 0.0)))
      ensures batchSize > 0 ==>
                |queue| == if |old(queue)| <= batchSize then 0 else |old(queue)| - batchSize
      ensures batchSize <= 0 ==> queue == old(queue)
    {
      if queue == [] {
        return;
      }
      var batch := PopBatch(batchSize);
      if batch == [] {
        return;
      }
      PostBatch(batch);
    }

    /** The drain of `_shutdown`: the queue is emptied in chunks of at most MAX_BATCH_SIZE, each settled. */
    method FlushAll()
      modifies this
      ensures queue == []
      ensures batches == old(batches) + |Chunks(old(queue))|
      ensures sent == old(sent) + TotalSent(env, old(batches), Chunks(old(queue)))
      ensures failed == old(failed) + TotalFailed(env, old(batches), Chunks(old(queue)))
      ensures posts == old(posts) + TotalPosts(env, ids, old(batches), Chunks(old(queue)))
    {
      hide LastVerdict, AttemptsLeft, Repeated, TotalSent, TotalFailed, TotalPosts;
      ghost var chunks, b := Chunks(queue), batches;
      ghost var allPosts := TotalPosts(env, ids, b, chunks);
      ghost var n, allSent, allFailed := |chunks|, TotalSent(env, b, chunks), TotalFailed(env, b, chunks);
      while queue != []
        invariant chunks == Chunks(queue) && b == batches && b + |chunks| == old(batches) + n
        invariant sent + TotalSent(env, b, chunks) == old(sent) + allSent
        invariant failed + TotalFailed(env, b, chunks) == old(failed) + allFailed
        invariant posts + TotalPosts(env, ids, b, chunks) == old(posts) + allPosts
        decreases |queue|
      {
        TotalsStep(env, b, chunks);
        PostsStep(env, ids, b, chunks, posts);
        var batch := PopBatch(MAX_BATCH_SIZE);
        if batch != [] {
          PostBatch(batch);
        }
        chunks, b := chunks[1..], b + 1;
      }
      NothingPosted(env, ids, b);
    }
  }
}

/**
 The retry contract shared by both `_post_batch` loops: what one HTTP reply decides, how long the
 client sleeps before the next attempt, and the schedule of a whole batch. Times are real seconds;
 floating-point rounding is not modelled.
 */
module RetryPolicy {
  import opened Options

  const MAX_RETRIES: nat := 5
  const RETRY_BASE_DELAY: real := 0.5
  const MAX_RETRY_TOTAL_SECONDS: real := 300.0

  /** What the text of a `Retry-After` header denotes (section 10.2.3 of RFC 9110). `float` also accepts
      "nan" and "inf"; `Date` carries target minus now. */
  datatype RetryAfter =
    | Missing
    | Unparseable
    | Seconds(seconds: real)
    | NotANumber
    | PosInfinity
    | NegInfinity
    | Date(delta: real)

  datatype Delay = Finite(seconds: real) | Infinite

  datatype Body = Unusable | Accepted(count: Option<int>)

  /** One POST as the client sees it end: an HTTP answer, a transport error, or any other exception. */
  datatype Reply =
    | Http(code: int, retryAfter: RetryAfter, body: Body)
    | Transport
    | Unexpected

  datatype Verdict = Sent(accepted: int) | Failed | Retry(delay: real)

  function AtLeastZero(x: real): real {
    if x < 0.0 then 0.0 else x
  }

  /** Python's `max(0.0, nan)` is `0.0`. */
  function ParseRetryAfter(header: RetryAfter): Option<Delay> {
    match header
    case Missing | Unparseable => None
    case Seconds(s) => Some(Finite(AtLeastZero(s)))
    case NotANumber | NegInfinity => Some(Finite(0.0))
    case PosInfinity => Some(Infinite)
    case Date(d) => Some(Finite(AtLeastZero(d)))
  }

  function Pow2(n: nat): real {
    if n == 0 then 1.0 else 2.0 * Pow2(n - 1)
  }

  function Backoff(attempt: nat): real {
    RETRY_BASE_DELAY * Pow2(if attempt == 0 then 0 else attempt - 1)
  }

  function ComputeNextRetryDelay(header: RetryAfter, attempt: nat, elapsed: real): Option<real> {
    if elapsed >= MAX_RETRY_TOTAL_SECONDS then None
    else
      var delay := match ParseRetryAfter(header) case None => Finite(Backoff(attempt)) case Some(d) => d;
      if delay.Infinite? || delay.seconds > MAX_RETRY_TOTAL_SECONDS - elapsed then None
      else Some(delay.seconds)
  }

  predicate Retryable(code: int) {
    code == 429 || code == 503
  }

  function RetryOrFail(header: RetryAfter, attempt: nat, elapsed: real): Verdict {
    match ComputeNextRetryDelay(header, attempt, elapsed)
    case None => Failed
    case Some(delay) => if attempt == MAX_RETRIES then Failed else Retry(delay)
  }

  /** What `_post_batch` does with a reply to attempt `attempt` of a batch of `count` events. */
  function Judge(reply: Reply, attempt: nat, elapsed: real, count: nat): Verdict {
    match reply
    case Http(code, retryAfter, body) =>
      if code == 401 then Failed
      else if Retryable(code) then RetryOrFail(retryAfter, attempt, elapsed)
      else if 200 <= code < 300 then
        match body {
          case Unusable => Failed
          case Accepted(None) => Sent(count)
          case Accepted(Some(n)) => Sent(n)
        }
      else Failed
    case Transport => RetryOrFail(Missing, attempt, elapsed)
    case Unexpected => Failed
  }

  /** The environment's part of one attempt: the time that passes before the clock is read, the reply,
      and how long the request took. */
  datatype Exchange = Exchange(lag: real, reply: Reply, requestTime: real)

  type Network = nat -> Exchange

  ghost predicate Forward(net: Network) {
    forall k: nat :: net(k).lag >= 0.0 && net(k).requestTime >= 0.0
  }

  /** One attempt of the schedule: `start` is the elapsed time read BEFORE the POST. */
  datatype Attempt = Attempt(start: real, requestTime: real, verdict: Verdict)

  function Sleep(a: Attempt): real {
    if a.verdict.Retry? then a.verdict.delay else 0.0
  }

  /** The attempts made from attempt number `attempt` on, when `clock` seconds have passed. */
  function Schedule(net: Network, count: nat, attempt: nat, clock: real): seq<Attempt>
    requires 1 <= attempt <= MAX_RETRIES
    decreases MAX_RETRIES - attempt
  {
    var ex := net(attempt);
    var start := clock + ex.lag;
    var verdict := Judge(ex.reply, attempt, start, count);
    var here := Attempt(start, ex.requestTime, verdict);
    if verdict.Retry? && attempt < MAX_RETRIES then
      [here] + Schedule(net, count, attempt + 1, start + ex.requestTime + verdict.delay)
    else [here]
  }

  function TotalSleep(attempts: seq<Attempt>): real {
    if attempts == [] then 0.0 else Sleep(attempts[0]) + TotalSleep(attempts[1..])
  }

  /** A reply leads to another attempt only before the last one, with a delay that is not negative and
      does not reach past the cap. */
  lemma RetryWithinBudget(reply: Reply, attempt: nat, elapsed: real, count: nat)
    ensures var v := Judge(reply, attempt, elapsed, count);
            v.Retry? ==> attempt != MAX_RETRIES && 0.0 <= v.delay && elapsed + v.delay <= MAX_RETRY_TOTAL_SECONDS
  {
    BackoffPositive(if attempt == 0 then 0 else attempt - 1);
  }

  lemma {:induction false} BackoffPositive(n: nat)
    ensures Pow2(n) > 0.0
  {
    if n > 0 {
      BackoffPositive(n - 1);
    }
  }

  /** A batch is tried again exactly on a transport error, a 429 or a 503, before the last attempt, when
      the wait fits the remaining budget. The wait is what `Retry-After` named, unchanged (a past date, a
      negative number and "nan" count as now, "inf" never fits), and the backoff when it named nothing. */
  lemma RetryExactly(reply: Reply, attempt: nat, elapsed: real, count: nat)
    requires 1 <= attempt <= MAX_RETRIES
    ensures var v := Judge(reply, attempt, elapsed, count);
            var header := if reply.Http? then reply.retryAfter else Missing;
            var wait := match header
                        case Missing | Unparseable => Backoff(attempt)
                        case Seconds(s) => if s < 0.0 then 0.0 else s
                        case Date(d) => if d < 0.0 then 0.0 else d
                        case NotANumber | NegInfinity | PosInfinity => 0.0;
            && (v.Retry? <==> && (reply.Transport? || (reply.Http? && reply.code in {429, 503}))
                              && attempt < 5 && !header.PosInfinity?
                              && elapsed < 300.0 && elapsed + wait <= 300.0)
            && (v.Retry? ==> v.delay == wait)
  {
    BackoffPositive(attempt - 1);
  }

  /** The answers that end a batch well: a 2xx whose JSON is an object. */
  predicate Accepting(reply: Reply) {
    reply.Http? && 200 <= reply.code < 300 && reply.body.Accepted?
  }

  /** What such an answer adds to the counter: what the server says it accepted, or else all of them. */
  function Counted(reply: Reply, count: nat): int
    requires Accepting(reply)
  {
    if reply.body.count.Some? then reply.body.count.value else count
  }

  /** A batch is sent exactly when such an answer comes, at any attempt and time, and the answer's count is what
      it is sent with. With `RetryExactly` this leaves nothing open: any other reply that is not tried again
      fails the batch. */
  lemma SentExactly(reply: Reply, attempt: nat, elapsed: real, count: nat)
    ensures var v := Judge(reply, attempt, elapsed, count);
            && (v.Sent? <==> Accepting(reply))
            && (v.Sent? ==> v.accepted == Counted(reply, count))
            && (v.Failed? <==> !Accepting(reply) && !v.Retry?)
  {
    hide ComputeNextRetryDelay;
  }

  /** The waits without a usable header: half a second, and twice as long every time. */
  lemma BackoffDoubles(attempt: nat)
    requires attempt >= 1
    ensures Backoff(1) == 0.5 && Backoff(attempt + 1) == 2.0 * Backoff(attempt)
  {
    assert Pow2(0) == 1.0 && Pow2(attempt) == 2.0 * Pow2(attempt - 1);
  }

  /** Every batch makes between 1 and MAX_RETRIES attempts, only the last of them decides, and the last
      one always decides: the loop never runs off its end. */
  lemma {:induction false} ScheduleDecides(net: Network, count: nat, attempt: nat, clock: real)
    requires 1 <= attempt <= MAX_RETRIES
    ensures var a := Schedule(net, count, attempt, clock);
            && 1 <= |a| <= MAX_RETRIES + 1 - attempt
            && !a[|a| - 1].verdict.Retry?
            && forall k :: 0 <= k < |a| - 1 ==> a[k].verdict.Retry?
    decreases MAX_RETRIES - attempt
  {
    RetryWithinBudget(net(attempt).reply, attempt, clock + net(attempt).lag, count);
    hide Judge;
    var a := Schedule(net, count, attempt, clock);
    if a[0].verdict.Retry? {
      var clock' := a[0].start + a[0].requestTime + a[0].verdict.delay;
      var b := Schedule(net, count, attempt + 1, clock');
      assert a == [a[0]] + b;
      ScheduleDecides(net, count, attempt + 1, clock');
      hide Schedule;
    }
  }

  /** How the batch ends: the verdict of its last attempt. */
  function LastVerdict(net: Network, count: nat, attempt: nat, clock: real): (v: Verdict)
    requires 1 <= attempt <= MAX_RETRIES
    ensures !v.Retry?
  {
    ScheduleDecides(net, count, attempt, clock);
    var a := Schedule(net, count, attempt, clock);
    a[|a| - 1].verdict
  }

  function AttemptsLeft(net: Network, count: nat, attempt: nat, clock: real): nat
    requires 1 <= attempt <= MAX_RETRIES
  {
    |Schedule(net, count, attempt, clock)|
  }

  /** The reply to the last attempt decides, and it alone: the batch is sent if it is such a 2xx, with its count,
      and failed otherwise. */
  lemma {:induction false} LastReplyDecides(net: Network, count: nat, attempt: nat, clock: real)
    requires 1 <= attempt <= MAX_RETRIES
    ensures AttemptsLeft(net, count, attempt, clock) >= 1
    ensures var last := net(attempt + AttemptsLeft(net, count, attempt, clock) - 1).reply;
            LastVerdict(net, count, attempt, clock) == if Accepting(last) then Sent(Counted(last, count)) else Failed
    decreases MAX_RETRIES - attempt
  {
    hide Judge, Schedule, LastVerdict;
    var ex := net(attempt);
    var start := clock + ex.lag;
    ScheduleDecides(net, count, attempt, clock);
    ScheduleStep(net, count, attempt, clock);
    SentExactly(ex.reply, attempt, start, count);
    var v := Judge(ex.reply, attempt, start, count);
    if v.Retry? {
      LastReplyDecides(net, count, attempt + 1, start + ex.requestTime + v.delay);
    }
  }

  /** One turn of the retry loop: either the reply decides and the schedule ends, or the batch ends as the
      next attempt's schedule does. */
  lemma ScheduleStep(net: Network, count: nat, attempt: nat, clock: real)
    requires 1 <= attempt <= MAX_RETRIES
    ensures var ex := net(attempt);
            var start := clock + ex.lag;
            var v := Judge(ex.reply, attempt, start, count);
            && (!v.Retry? ==>
                  AttemptsLeft(net, count, attempt, clock) == 1 && LastVerdict(net, count, attempt, clock) == v)
            && (v.Retry? ==>
                  var next := start + ex.requestTime + v.delay;
                  && attempt < MAX_RETRIES
                  && AttemptsLeft(net, count, attempt, clock) == 1 + AttemptsLeft(net, count, attempt + 1, next)
                  && LastVerdict(net, count, attempt, clock) == LastVerdict(net, count, attempt + 1, next))
  {
    hide Judge;
    ScheduleDecides(net, count, attempt, clock);
    RetryWithinBudget(net(attempt).reply, attempt, clock + net(attempt).lag, count);
  }

  /** For any sequence of replies and `Retry-After` values the sleeps of one batch total at most the cap:
      already the clock at which the batch (or its rest) starts counts against it. */
  lemma {:induction false} SleepBudget(net: Network, count: nat, attempt: nat, clock: real)
    requires Forward(net) && 1 <= attempt <= MAX_RETRIES && 0.0 <= clock
    ensures var t := TotalSleep(Schedule(net, count, attempt, clock));
            0.0 <= t && (t > 0.0 ==> clock + t <= MAX_RETRY_TOTAL_SECONDS)
    decreases MAX_RETRIES - attempt
  {
    hide Judge;
    var ex := net(attempt);
    var start := clock + ex.lag;
    var verdict := Judge(ex.reply, attempt, start, count);
    RetryWithinBudget(ex.reply, attempt, start, count);
    var here := [Attempt(start, ex.requestTime, verdict)];
    if verdict.Retry? {
      var next := start + ex.requestTime + verdict.delay;
      var rest := Schedule(net, count, attempt + 1, next);
      SleepBudget(net, count, attempt + 1, next);
      assert (here + rest)[1..] == rest;
      assert TotalSleep(here + rest) == verdict.delay + TotalSleep(rest);
    } else {
      assert here[1..] == [];
    }
  }

  /** No attempt starts later than the cap plus the previous attempt's request time (plus the scheduling
      lag of the attempt itself): `elapsed` is read before the POST, so the POST is what can overrun. */
  lemma {:induction false} AttemptStartBound(net: Network, count: nat, attempt: nat, clock: real, k: nat)
    requires Forward(net) && 1 <= attempt <= MAX_RETRIES
    requires 0 < k < |Schedule(net, count, attempt, clock)|
    ensures var a := Schedule(net, count, attempt, clock);
            a[k].start <= MAX_RETRY_TOTAL_SECONDS + a[k - 1].requestTime + net(attempt + k).lag
    decreases MAX_RETRIES - attempt
  {
    hide Judge;
    var a := Schedule(net, count, attempt, clock);
    var ex := net(attempt);
    var next := a[0].start + a[0].requestTime + a[0].verdict.delay;
    RetryWithinBudget(ex.reply, attempt, clock + ex.lag, count);
    if k > 1 {
      AttemptStartBound(net, count, attempt + 1, next, k - 1);
    }
  }

  /** The wait a reply names before the next attempt, if there is one. */
  function Wait(reply: Reply, attempt: nat): real {
    match ParseRetryAfter(if reply.Http? then reply.retryAfter else Missing)
    case None => Backoff(attempt)
    case Some(Finite(seconds)) => seconds
    case Some(Infinite) => 0.0
  }

  /** The seconds the network takes from attempt number `attempt` to the start of the `k`-th after it: lags,
      requests and the waits their replies name. */
  function Spent(net: Network, attempt: nat, k: nat): real
    decreases k
  {
    net(attempt).lag
    + if k == 0 then 0.0
      else net(attempt).requestTime + Wait(net(attempt).reply, attempt) + Spent(net, attempt + 1, k - 1)
  }

  lemma DelayIsWait(reply: Reply, attempt: nat, elapsed: real, count: nat)
    ensures var v := Judge(reply, attempt, elapsed, count); v.Retry? ==> v.delay == Wait(reply, attempt)
  {
    hide Backoff;
  }

  /** An attempt starts when the network has spent its time, and so within the cap exactly when that fits. */
  lemma {:induction false} AttemptStartsWithinIff(net: Network, count: nat, attempt: nat, clock: real, k: nat)
    requires 1 <= attempt <= MAX_RETRIES && k < |Schedule(net, count, attempt, clock)|
    ensures var start := Schedule(net, count, attempt, clock)[k].start;
            && start == clock + Spent(net, attempt, k)
            && (start <= MAX_RETRY_TOTAL_SECONDS <==> Spent(net, attempt, k) <= MAX_RETRY_TOTAL_SECONDS - clock)
    decreases MAX_RETRIES - attempt
  {
    hide Judge, Wait, Schedule;
    FirstAttempt(net, count, attempt, clock);
    if k > 0 {
      var first := Schedule(net, count, attempt, clock)[0];
      var next := first.start + first.requestTime + first.verdict.delay;
      AttemptStartsWithinIff(net, count, attempt + 1, next, k - 1);
    }
  }

  lemma FirstAttempt(net: Network, count: nat, attempt: nat, clock: real)
    requires 1 <= attempt <= MAX_RETRIES
    ensures var a := Schedule(net, count, attempt, clock);
            && |a| > 0 && a[0].start == clock + net(attempt).lag
            && (|a| > 1 ==>
                  && a[0].verdict.Retry? && attempt < MAX_RETRIES && a[0].requestTime == net(attempt).requestTime
                  && a[0].verdict.delay == Wait(net(attempt).reply, attempt)
                  && a[1..] == Schedule(net, count, attempt + 1,
                                        a[0].start + a[0].requestTime + a[0].verdict.delay))
  {
    var ex := net(attempt);
    DelayIsWait(ex.reply, attempt, clock + ex.lag, count);
    hide Judge, Wait;
  }

  /** The bound above is met: with one slow POST an attempt does start after the cap. */
  lemma AttemptCanStartAfterCap() returns (net: Network)
    ensures Forward(net)
    ensures |Schedule(net, 1, 1, 0.0)| >= 2 && Schedule(net, 1, 1, 0.0)[1].start > MAX_RETRY_TOTAL_SECONDS
  {
    net := k => Exchange(0.0, Transport, 400.0);
    var a := Schedule(net, 1, 1, 0.0);
    assert Pow2(0) == 1.0;
    assert a[0].verdict == Retry(0.5);
  }

  ghost predicate NoHeader(net: Network) {
    forall k: nat :: net(k).reply.Http? ==> ParseRetryAfter(net(k).reply.retryAfter).None?
  }

  function BackoffsFrom(attempt: nat): real
    requires 1 <= attempt <= MAX_RETRIES
    decreases MAX_RETRIES - attempt
  {
    if attempt == MAX_RETRIES then 0.0 else Backoff(attempt) + BackoffsFrom(attempt + 1)
  }

  lemma {:induction false} BackoffSleeps(net: Network, count: nat, attempt: nat, clock: real)
    requires NoHeader(net) && 1 <= attempt <= MAX_RETRIES
    ensures TotalSleep(Schedule(net, count, attempt, clock)) <= BackoffsFrom(attempt)
    ensures 0.0 <= BackoffsFrom(attempt)
    decreases MAX_RETRIES - attempt
  {
    var a := Schedule(net, count, attempt, clock);
    BackoffPositive(attempt - 1);
    if attempt < MAX_RETRIES {
      var next := if a[0].verdict.Retry? then a[0].start + a[0].requestTime + a[0].verdict.delay else 0.0;
      BackoffSleeps(net, count, attempt + 1, next);
      if a[0].verdict.Retry? {
        assert a[1..] == Schedule(net, count, attempt + 1, next);
      } else {
        assert a[1..] == [];
      }
    }
  }

  /** Without a usable `Retry-After` the sleeps of a batch total at most 0.5 + 1 + 2 + 4 seconds. */
  lemma BackoffTotal(net: Network, count: nat, clock: real)
    requires NoHeader(net)
    ensures TotalSleep(Schedule(net, count, 1, clock)) <= 7.5
  {
    BackoffSleeps(net, count, 1, clock);
    assert Pow2(1) == 2.0 && Pow2(2) == 4.0 && Pow2(3) == 8.0;
    assert BackoffsFrom(4) == 4.0;
    assert BackoffsFrom(2) == 7.0;
  }
}

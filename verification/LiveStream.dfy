/**
 What the API-key stream adds to the session: the heartbeat that keeps a silent run alive, and the one
 metadata dictionary all its posts share. Times are real seconds.
 */
module Stream {
  import opened Session

  const HEARTBEAT_INTERVAL: real := 30.0

  predicate Idle(now: real, lastReal: real) {
    now - lastReal >= HEARTBEAT_INTERVAL
  }

  // ----- The stream over time -----

  datatype Entry = Entry(at: real, heartbeat: bool)

  /** `nextWake` is when the heartbeat loop's current sleep ends; `log` is everything enqueued. */
  datatype Timeline = Timeline(now: real, lastReal: real, nextWake: real, log: seq<Entry>)

  /** The heartbeat task starts at `start`; the activity clock was set when the stream was built. */
  function Begin(built: real, start: real): Timeline {
    Timeline(start, built, start + HEARTBEAT_INTERVAL, [])
  }

  datatype Action = Pass(until: real) | Real | WakeUp

  predicate Can(s: Timeline, a: Action) {
    match a
    case Pass(until) => s.now <= until <= s.nextWake
    case Real => true
    case WakeUp => s.now == s.nextWake
  }

  function Do(s: Timeline, a: Action): Timeline {
    match a
    case Pass(until) => s.(now := until)
    case Real => s.(lastReal := s.now, log := s.log + [Entry(s.now, false)])
    case WakeUp =>
      s.(nextWake := s.now + HEARTBEAT_INTERVAL,
         log := if Idle(s.now, s.lastReal) then s.log + [Entry(s.now, true)] else s.log)
  }

  ghost predicate Lived(s: Timeline, actions: seq<Action>, t: Timeline)
    decreases |actions|
  {
    if actions == [] then s == t
    else Can(s, actions[0]) && Lived(Do(s, actions[0]), actions[1..], t)
  }

  /** The last enqueue, or the start of the stream if there was none. */
  function LastSign(start: real, log: seq<Entry>): real {
    if log == [] then start else log[|log| - 1].at
  }

  predicate Follows(start: real, log: seq<Entry>, i: nat)
    requires i < |log|
  {
    var before := if i == 0 then start else log[i - 1].at;
    before <= log[i].at < before + 2.0 * HEARTBEAT_INTERVAL
  }

  /** Consecutive enqueues (the first one after `start`) are less than two intervals apart, and a heartbeat
      comes at least one interval after any real event before it. */
  ghost predicate Spaced(start: real, log: seq<Entry>) {
    && (forall i :: 0 <= i < |log| ==> Follows(start, log, i))
    && (forall i, j :: 0 <= i < j < |log| && log[j].heartbeat && !log[i].heartbeat ==>
          log[j].at - log[i].at >= HEARTBEAT_INTERVAL)
  }

  ghost predicate Alive(start: real, s: Timeline) {
    && Spaced(start, s.log)
    && s.now <= s.nextWake <= s.now + HEARTBEAT_INTERVAL
    && start <= LastSign(start, s.log) <= s.now
    && s.nextWake < LastSign(start, s.log) + 2.0 * HEARTBEAT_INTERVAL
    && s.lastReal <= LastSign(start, s.log)
    && (forall i :: 0 <= i < |s.log| && !s.log[i].heartbeat ==> s.log[i].at <= s.lastReal)
  }

  lemma AliveStep(start: real, s: Timeline, a: Action)
    requires Alive(start, s) && Can(s, a)
    ensures Alive(start, Do(s, a))
  {
    var next := Do(s, a);
    AliveSpaced(start, s, a);
    hide Spaced;
  }

  lemma AliveSpaced(start: real, s: Timeline, a: Action)
    requires Alive(start, s) && Can(s, a)
    ensures Spaced(start, Do(s, a).log)
  {
    hide Spaced;
    if a.Real? {
      SpacedSnoc(start, s.log, Entry(s.now, false));
    } else if a.WakeUp? && Idle(s.now, s.lastReal) {
      SpacedSnoc(start, s.log, Entry(s.now, true));
    }
  }

  /** One more entry, soon enough after the last and, if a heartbeat, late enough after any real event. */
  lemma SpacedSnoc(start: real, log: seq<Entry>, e: Entry)
    requires Spaced(start, log) && LastSign(start, log) <= e.at < LastSign(start, log) + 2.0 * HEARTBEAT_INTERVAL
    requires e.heartbeat ==>
               forall i :: 0 <= i < |log| && !log[i].heartbeat ==> e.at - log[i].at >= HEARTBEAT_INTERVAL
    ensures Spaced(start, log + [e])
  {
    var more := log + [e];
    assert forall i :: 0 <= i < |log| ==> more[i] == log[i];
    assert Follows(start, more, |log|);
    forall i | 0 <= i < |log| ensures Follows(start, more, i) {
      assert Follows(start, log, i);
    }
  }

  lemma {:induction false} StreamStaysAlive(start: real, s: Timeline, actions: seq<Action>, t: Timeline)
    requires Alive(start, s) && Lived(s, actions, t)
    ensures Alive(start, t)
    decreases |actions|
  {
    hide Alive, Do, Can;
    if actions != [] {
      AliveStep(start, s, actions[0]);
      StreamStaysAlive(start, Do(s, actions[0]), actions[1..], t);
    }
  }

  /** In every timed run with room in the queue and exact sleeps, two consecutive enqueues are less than two
      intervals apart (also at the start, and up to now), and no heartbeat follows real activity by less than
      one interval. */
  lemma HeartbeatLiveness(built: real, start: real, actions: seq<Action>, t: Timeline)
    requires built <= start && Lived(Begin(built, start), actions, t)
    ensures Spaced(start, t.log)
    ensures t.now < LastSign(start, t.log) + 2.0 * HEARTBEAT_INTERVAL
    ensures HEARTBEAT_INTERVAL == 30.0
  {
    StreamStaysAlive(start, Begin(built, start), actions, t);
  }

  // ----- The object -----

  /** The stream with its heartbeat task: `nextWake` is when the task's current sleep ends, and `log` says when
      what was enqueued. */
  class LiveStream {
    var lastReal: real
    var nextWake: real
    var queue: seq<Event>
    var log: seq<Entry>

    function View(now: real): Timeline
      reads this
    {
      Timeline(now, lastReal, nextWake, log)
    }

    constructor (built: real, start: real)
      ensures View(start) == Begin(built, start) && queue == []
    {
      lastReal, nextWake, queue, log := built, start + HEARTBEAT_INTERVAL, [], [];
    }

    /** `record`, `log` and `metric` on a queue with room: the activity clock moves first, then the event is
        enqueued. */
    method Enqueue(event: Event, now: real)
      requires |queue| < MAX_QUEUE_SIZE && !event.LiveHeartbeat?
      modifies this
      ensures View(now) == Do(old(View(now)), Real) && queue == old(queue) + [event]
      ensures forall start :: Alive(start, old(View(now))) ==> Alive(start, View(now))
    {
      ghost var before := View(now);
      lastReal := now;
      queue := queue + [event];
      log := log + [Entry(now, false)];
      StepStaysAlive(before, Real);
    }

    method MaybeEmitHeartbeat(now: real) returns (emitted: bool)
      requires |queue| < MAX_QUEUE_SIZE
      modifies this`queue, this`log
      ensures emitted <==> Idle(now, lastReal)
      ensures queue == if emitted then old(queue) + [LiveHeartbeat((now * 1000.0).Floor)] else old(queue)
      ensures log == if emitted then old(log) + [Entry(now, true)] else old(log)
    {
      if !Idle(now, lastReal) {
        return false;
      }
      queue := queue + [LiveHeartbeat((now * 1000.0).Floor)];
      log := log + [Entry(now, true)];
      return true;
    }

    /** One turn of the heartbeat loop: its sleep ends, the helper decides, the next sleep begins. The stream stays
        alive by it, however the turns and the real events interleave. */
    method WakeUp(now: real)
      requires |queue| < MAX_QUEUE_SIZE && now == nextWake
      modifies this
      ensures View(now) == Do(old(View(now)), Action.WakeUp) && lastReal == old(lastReal)
      ensures forall start :: Alive(start, old(View(now))) ==> Alive(start, View(now))
    {
      ghost var before := View(now);
      var emitted := MaybeEmitHeartbeat(now);
      nextWake := now + HEARTBEAT_INTERVAL;
      StepStaysAlive(before, Action.WakeUp);
    }
  }

  /** One step, seen from any start. */
  lemma StepStaysAlive(s: Timeline, a: Action)
    requires Can(s, a)
    ensures forall start :: Alive(start, s) ==> Alive(start, Do(s, a))
  {
    hide Alive, Do;
    forall start | Alive(start, s)
      ensures Alive(start, Do(s, a))
    {
      AliveStep(start, s, a);
    }
  }

  /** Time passing up to the end of the sleep keeps the stream alive too: what the methods need of `now`. */
  lemma AliveUntilWake(start: real, s: Timeline, now: real)
    requires Alive(start, s) && s.now <= now <= s.nextWake
    ensures Alive(start, s.(now := now))
  {
    AliveStep(start, s, Pass(now));
  }

  // ----- One metadata dictionary for all posts, against a server that refuses its run context -----

  /** A post either carries the dictionary as it was when the request was serialised, or has been sent again
      without the context, or is over. */
  datatype Post = Sending(withContext: bool) | Resent | Stored | Lost

  datatype Sharing = Sharing(context: bool, posts: seq<Post>)

  datatype Exchange =
    | Start
    | TransportError(post: nat)   // the retry serialises the dictionary again
    | Refuse(post: nat)           // 422 blaming the run context, of a request that carried it
    | Accept(post: nat)           // 2xx, of a request that did not

  predicate Possible(s: Sharing, e: Exchange) {
    match e
    case Start => true
    case TransportError(k) => k < |s.posts| && (s.posts[k].Sending? || s.posts[k].Resent?)
    case Refuse(k) => k < |s.posts| && s.posts[k] == Sending(true)
    case Accept(k) => k < |s.posts| && (s.posts[k] == Sending(false) || s.posts[k].Resent?)
  }

  /** A refusal drops the context and posts again only while the dictionary still holds it; otherwise the 422
      is an unexpected error and the batch counts as failed. */
  function After(s: Sharing, e: Exchange): Sharing
    requires Possible(s, e)
  {
    match e
    case Start => s.(posts := s.posts + [Sending(s.context)])
    case TransportError(k) => s.(posts := s.posts[k := Sending(s.context)])
    case Refuse(k) =>
      if s.context then Sharing(false, s.posts[k := Resent]) else s.(posts := s.posts[k := Lost])
    case Accept(k) => s.(posts := s.posts[k := Stored])
  }

  ghost predicate Shared(s: Sharing, exchanges: seq<Exchange>, t: Sharing)
    decreases |exchanges|
  {
    if exchanges == [] then s == t
    else Possible(s, exchanges[0]) && Shared(After(s, exchanges[0]), exchanges[1..], t)
  }

  ghost predicate NothingLost(s: Sharing) {
    forall k :: 0 <= k < |s.posts| ==> !s.posts[k].Lost?
  }

  /** No batch need be lost: the first refusal posts again without the context, and that, like any post started
      once it is dropped, can be accepted. */
  lemma RefusedCanBeStored(s: Sharing, k: nat)
    requires s.context && Possible(s, Refuse(k))
    ensures var next := After(s, Refuse(k));
            && !next.context && next.posts[k] == Resent && Possible(next, Accept(k))
            && After(next, Accept(k)).posts[k] == Stored
            && var started, n := After(next, Start), |next.posts|;
               Possible(started, Accept(n)) && After(started, Accept(n)).posts[n] == Stored
  {
  }

  ghost predicate CarriesContext(s: Sharing, k: nat) {
    k < |s.posts| && s.posts[k] == Sending(true)
  }

  lemma {:induction false} NothingLostWithoutCarriers(s: Sharing, exchanges: seq<Exchange>, t: Sharing)
    requires Shared(s, exchanges, t) && !s.context && NothingLost(s)
    requires forall k: nat :: !CarriesContext(s, k)
    ensures NothingLost(t)
    decreases |exchanges|
  {
    if exchanges != [] {
      var next := After(s, exchanges[0]);
      forall k: nat
        ensures !CarriesContext(next, k)
      {
        assert !CarriesContext(s, k);
      }
      assert !CarriesContext(s, if exchanges[0].Refuse? then exchanges[0].post else 0);
      NothingLostWithoutCarriers(next, exchanges[1..], t);
    }
  }

  lemma {:induction false} NothingLostWhileShared(s: Sharing, exchanges: seq<Exchange>, t: Sharing)
    requires Shared(s, exchanges, t) && s.context && t.context && NothingLost(s)
    ensures NothingLost(t)
    decreases |exchanges|
  {
    if exchanges != [] {
      var next := After(s, exchanges[0]);
      if !next.context {
        ContextStaysDropped(next, exchanges[1..], t);
      }
      NothingLostWhileShared(next, exchanges[1..], t);
    }
  }

  lemma {:induction false} ContextStaysDropped(s: Sharing, exchanges: seq<Exchange>, t: Sharing)
    requires Shared(s, exchanges, t) && !s.context
    ensures !t.context
    decreases |exchanges|
  {
    if exchanges != [] {
      ContextStaysDropped(After(s, exchanges[0]), exchanges[1..], t);
    }
  }

  /** "Results are never lost to metadata" holds of a refusal exactly when no other post in flight carries the
      context at that moment: then no continuation loses a batch, and otherwise one does. */
  lemma LostIffAnotherCarrier(s: Sharing, k: nat)
    requires s.context && NothingLost(s) && Possible(s, Refuse(k))
    ensures (exists j: nat :: j != k && CarriesContext(s, j)) <==> CanLose(After(s, Refuse(k)))
  {
    var next := After(s, Refuse(k));
    if exists j: nat :: j != k && CarriesContext(s, j) {
      var j: nat :| j != k && CarriesContext(s, j);
      var t := After(next, Refuse(j));
      assert Shared(t, [], t);
      assert [Refuse(j)][1..] == [];
      assert t.posts[j].Lost?;
      assert Shared(next, [Refuse(j)], t) && !NothingLost(t);
    } else {
      forall j: nat
        ensures !CarriesContext(next, j)
      {
        assert j != k ==> !CarriesContext(s, j);
      }
      forall exchanges, t | Shared(next, exchanges, t)
        ensures NothingLost(t)
      {
        NothingLostWithoutCarriers(next, exchanges, t);
      }
    }
  }

  /** Some continuation ends with a batch lost. */
  ghost predicate CanLose(s: Sharing) {
    exists exchanges, t :: Shared(s, exchanges, t) && !NothingLost(t)
  }
}

/**
 The fleet at work: deployments scale, roll out, open and close database connections, and a migration runs beside
 them. The validator's arithmetic bounds every state this machine can reach, and the bound is attained.
 */
module FleetMachine {
  import opened Options
  import opened FleetBudget

  /** A deployment as it runs: at most `max` replicas, `processes` pools a pod of `perProcess` connections each. */
  datatype Workload = Workload(max: int, rollout: Rollout, processes: nat, perProcess: nat)

  type Pod = seq<nat>

  /** For each workload the replicas wanted and the pods that exist, a pod being its processes' open connections. */
  datatype State = State(desired: seq<nat>, pods: seq<seq<Pod>>, migration: nat)

  datatype Action =
    | Scale(w: nat, replicas: nat)
    | StartPod(w: nat)
    | StopPod(w: nat, i: nat)
    | Open(w: nat, i: nat, p: nat)
    | Close(w: nat, i: nat, p: nat)
    | OpenMigration
    | CloseMigration

  ghost predicate Initial(fleet: seq<Workload>, s: State) {
    && |s.desired| == |s.pods| == |fleet| && s.migration == 0
    && (forall w :: 0 <= w < |fleet| ==> s.pods[w] == [] && (s.desired[w] == 0 || s.desired[w] <= fleet[w].max))
  }

  predicate Socket(s: State, w: nat, i: nat, p: nat) {
    w < |s.pods| && i < |s.pods[w]| && p < |s.pods[w][i]|
  }

  /** When a rollout may start one more pod: below the wanted replicas, and above them by as many as its surge
      allows, a share counting with its last fraction of a pod. */
  predicate MayStart(rollout: Rollout, desired: nat, running: nat) {
    match rollout
    case Recreate => running < desired
    case Count(n) => running < desired + n
    case Percent(p) => 100 * (running - desired) < desired * p
  }

  lemma MayStartIff(rollout: Rollout, desired: nat, running: nat)
    ensures MayStart(rollout, desired, running) <==> running < desired + SurgeAt(rollout, desired)
  {
  }

  /** Replicas stay within the maximum; a rollout starts a pod only below the wanted replicas plus the surge; a
      process opens no more than its pool and overflow; the migration no more than its share. */
  predicate Enabled(fleet: seq<Workload>, limit: int, s: State, a: Action)
    requires |s.desired| == |s.pods| == |fleet|
  {
    match a
    case Scale(w, replicas) => w < |fleet| && replicas <= fleet[w].max
    case StartPod(w) =>
      w < |fleet| && s.desired[w] > 0 && MayStart(fleet[w].rollout, s.desired[w], |s.pods[w]|)
    case StopPod(w, i) => w < |fleet| && i < |s.pods[w]|
    case Open(w, i, p) => Socket(s, w, i, p) && s.pods[w][i][p] < fleet[w].perProcess
    case Close(w, i, p) => Socket(s, w, i, p) && s.pods[w][i][p] > 0
    case OpenMigration => s.migration < limit
    case CloseMigration => s.migration > 0
  }

  function Idle(processes: nat): Pod {
    seq(processes, _ => 0)
  }

  function SetSocket(pods: seq<seq<Pod>>, w: nat, i: nat, p: nat, n: nat): seq<seq<Pod>>
    requires w < |pods| && i < |pods[w]| && p < |pods[w][i]|
  {
    pods[w := pods[w][i := pods[w][i][p := n]]]
  }

  function Apply(fleet: seq<Workload>, limit: int, s: State, a: Action): (t: State)
    requires |s.desired| == |s.pods| == |fleet| && Enabled(fleet, limit, s, a)
    ensures |t.desired| == |t.pods| == |fleet|
  {
    match a
    case Scale(w, replicas) => s.(desired := s.desired[w := replicas])
    case StartPod(w) => s.(pods := s.pods[w := s.pods[w] + [Idle(fleet[w].processes)]])
    case StopPod(w, i) => s.(pods := s.pods[w := s.pods[w][..i] + s.pods[w][i + 1..]])
    case Open(w, i, p) => s.(pods := SetSocket(s.pods, w, i, p, s.pods[w][i][p] + 1))
    case Close(w, i, p) => s.(pods := SetSocket(s.pods, w, i, p, s.pods[w][i][p] - 1))
    case OpenMigration => s.(migration := s.migration + 1)
    case CloseMigration => s.(migration := s.migration - 1)
  }

  /** A run: every state after the first follows from the one before it by an enabled action. */
  ghost predicate Run(fleet: seq<Workload>, limit: int, states: seq<State>) {
    && states != [] && Initial(fleet, states[0])
    && forall k :: 0 <= k < |states| - 1 ==> Follows(fleet, limit, states[k], states[k + 1])
  }

  ghost predicate Follows(fleet: seq<Workload>, limit: int, s: State, t: State) {
    && |s.desired| == |s.pods| == |fleet|
    && exists a :: Enabled(fleet, limit, s, a) && t == Apply(fleet, limit, s, a)
  }

  // ----- Counting -----

  function Sum(xs: seq<nat>): nat {
    if xs == [] then 0 else Sum(xs[..|xs| - 1]) + xs[|xs| - 1]
  }

  lemma {:induction false} SumUpdate(xs: seq<nat>, i: nat, v: nat)
    requires i < |xs|
    ensures Sum(xs[i := v]) == Sum(xs) - xs[i] + v
  {
    var n := |xs| - 1;
    if i < n {
      SumUpdate(xs[..n], i, v);
      assert xs[i := v][..n] == xs[..n][i := v];
    } else {
      assert xs[i := v][..n] == xs[..n];
    }
  }

  lemma {:induction false} SumMonotone(xs: seq<nat>, ys: seq<nat>)
    requires |xs| == |ys| && forall i :: 0 <= i < |xs| ==> xs[i] <= ys[i]
    ensures Sum(xs) <= Sum(ys)
  {
    if xs != [] {
      SumMonotone(xs[..|xs| - 1], ys[..|ys| - 1]);
    }
  }

  lemma {:induction false} SumBound(xs: seq<nat>, most: nat)
    requires forall i :: 0 <= i < |xs| ==> xs[i] <= most
    ensures Sum(xs) <= |xs| * most
    ensures (forall i :: 0 <= i < |xs| ==> xs[i] == most) ==> Sum(xs) == |xs| * most
  {
    if xs != [] {
      SumBound(xs[..|xs| - 1], most);
      assert |xs| * most == (|xs| - 1) * most + most;
    }
  }

  function PodSums(pods: seq<Pod>): seq<nat> {
    seq(|pods|, i requires 0 <= i < |pods| => Sum(pods[i]))
  }

  function WorkloadSums(pods: seq<seq<Pod>>): seq<nat> {
    seq(|pods|, w requires 0 <= w < |pods| => Sum(PodSums(pods[w])))
  }

  /** Every connection open on the server. */
  function Connected(s: State): nat {
    Sum(WorkloadSums(s.pods)) + s.migration
  }

  function NotNegative(n: int): nat {
    if n < 0 then 0 else n
  }

  /** The most pods a workload can have: none if it cannot have a replica. */
  function MostPods(w: Workload): nat {
    if w.max <= 0 then 0 else NotNegative(w.max + SurgeAt(w.rollout, w.max))
  }

  function PodRoom(w: Workload): nat {
    w.processes * w.perProcess
  }

  function Room(w: Workload): nat {
    MostPods(w) * PodRoom(w)
  }

  function Rooms(fleet: seq<Workload>): seq<nat> {
    seq(|fleet|, w requires 0 <= w < |fleet| => Room(fleet[w]))
  }

  function Peak(fleet: seq<Workload>, limit: int): nat {
    Sum(Rooms(fleet)) + NotNegative(limit)
  }

  // ----- The bound holds in every reachable state -----

  /** Replicas plus their percentage surge, in hundredths. */
  lemma SurgedHundredths(replicas: int, p: int)
    ensures replicas + Hundredth(replicas * p) == Hundredth(replicas * (p + 100))
  {
    assert replicas * (p + 100) == replicas * p + replicas * 100;
  }

  lemma ProductOrder(a: int, b: int, c: int)
    requires 0 < a <= b
    ensures c >= 0 ==> a * c <= b * c
    ensures c <= 0 ==> a * c <= 0
  {
  }

  /** Scaling down never allows more pods than the maximum does, whatever `maxSurge` is: replicas plus surge grow
      with the replicas, or are never positive. */
  lemma PodsAtMost(w: Workload, replicas: int)
    requires 0 < replicas <= w.max
    ensures replicas + SurgeAt(w.rollout, replicas) <= MostPods(w)
  {
    if w.rollout.Percent? {
      var p := w.rollout.p;
      SurgedHundredths(replicas, p);
      SurgedHundredths(w.max, p);
      ProductOrder(replicas, w.max, p + 100);
    }
  }

  ghost predicate GoodPod(w: Workload, pod: Pod) {
    |pod| == w.processes && forall p :: 0 <= p < |pod| ==> pod[p] <= w.perProcess
  }

  ghost predicate GoodWorkload(w: Workload, desired: nat, pods: seq<Pod>) {
    && (desired == 0 || desired <= w.max)
    && |pods| <= MostPods(w)
    && forall i :: 0 <= i < |pods| ==> GoodPod(w, pods[i])
  }

  ghost predicate Inv(fleet: seq<Workload>, limit: int, s: State) {
    && |s.desired| == |s.pods| == |fleet| && s.migration <= NotNegative(limit)
    && forall w :: 0 <= w < |fleet| ==> GoodWorkload(fleet[w], s.desired[w], s.pods[w])
  }

  lemma StepKeepsInv(fleet: seq<Workload>, limit: int, s: State, a: Action)
    requires Inv(fleet, limit, s) && Enabled(fleet, limit, s, a)
    ensures Inv(fleet, limit, Apply(fleet, limit, s, a))
  {
    hide MostPods;
    match a {
      case StartPod(w) =>
        assert GoodWorkload(fleet[w], s.desired[w], s.pods[w]);
        PodsAtMost(fleet[w], s.desired[w]);
        MayStartIff(fleet[w].rollout, s.desired[w], |s.pods[w]|);
        assert GoodPod(fleet[w], Idle(fleet[w].processes));
      case Open(w, i, p) =>
        assert GoodWorkload(fleet[w], s.desired[w], s.pods[w]) && GoodPod(fleet[w], s.pods[w][i]);
        assert GoodPod(fleet[w], s.pods[w][i][p := s.pods[w][i][p] + 1]);
      case Close(w, i, p) =>
        assert GoodWorkload(fleet[w], s.desired[w], s.pods[w]) && GoodPod(fleet[w], s.pods[w][i]);
        assert GoodPod(fleet[w], s.pods[w][i][p := s.pods[w][i][p] - 1]);
      case Scale(w, replicas) =>
        assert GoodWorkload(fleet[w], s.desired[w], s.pods[w]);
      case StopPod(w, i) =>
        assert GoodWorkload(fleet[w], s.desired[w], s.pods[w]);
      case OpenMigration =>
      case CloseMigration =>
    }
    hide GoodPod;
  }

  lemma {:induction false} RunKeepsInv(fleet: seq<Workload>, limit: int, states: seq<State>)
    requires Run(fleet, limit, states)
    ensures Inv(fleet, limit, states[|states| - 1])
    decreases |states|
  {
    var n := |states| - 1;
    if n > 0 {
      assert states[..n][n - 1] == states[n - 1];
      RunKeepsInv(fleet, limit, states[..n]);
      assert Follows(fleet, limit, states[n - 1], states[n - 1 + 1]);
      var a :| Enabled(fleet, limit, states[n - 1], a) && states[n] == Apply(fleet, limit, states[n - 1], a);
      StepKeepsInv(fleet, limit, states[n - 1], a);
    }
    hide Enabled, Apply, SurgeAt;
  }

  lemma MulMonotone(a: nat, b: nat, c: nat)
    requires a <= b
    ensures a * c <= b * c
  {
  }

  lemma WorkloadWithinRoom(w: Workload, desired: nat, pods: seq<Pod>)
    requires GoodWorkload(w, desired, pods)
    ensures Sum(PodSums(pods)) <= Room(w)
  {
    forall i | 0 <= i < |pods| ensures PodSums(pods)[i] <= PodRoom(w) {
      assert GoodPod(w, pods[i]);
      SumBound(pods[i], w.perProcess);
    }
    SumBound(PodSums(pods), PodRoom(w));
    MulMonotone(|pods|, MostPods(w), PodRoom(w));
    hide Sum;
  }

  lemma InvBounds(fleet: seq<Workload>, limit: int, s: State)
    requires Inv(fleet, limit, s)
    ensures Connected(s) <= Peak(fleet, limit)
  {
    forall w | 0 <= w < |fleet| ensures WorkloadSums(s.pods)[w] <= Rooms(fleet)[w] {
      WorkloadWithinRoom(fleet[w], s.desired[w], s.pods[w]);
    }
    SumMonotone(WorkloadSums(s.pods), Rooms(fleet));
    hide Sum, Room;
  }

  // ----- The bound is attained -----

  function MissingPods(fleet: seq<Workload>, s: State): seq<nat>
    requires |s.pods| == |fleet|
  {
    seq(|fleet|, w requires 0 <= w < |fleet| => NotNegative(MostPods(fleet[w]) - |s.pods[w]|))
  }

  /** Every workload that may have replicas wants its maximum. */
  ghost predicate ScaledUp(fleet: seq<Workload>, s: State) {
    && |s.desired| == |s.pods| == |fleet|
    && forall w :: 0 <= w < |fleet| ==> s.desired[w] == NotNegative(fleet[w].max)
  }

  lemma OpenAddsOne(s: State, w: nat, i: nat, p: nat)
    requires Socket(s, w, i, p)
    ensures var t := s.(pods := SetSocket(s.pods, w, i, p, s.pods[w][i][p] + 1));
            Connected(t) == Connected(s) + 1
  {
    var pods := s.pods[w];
    var pod := pods[i][p := pods[i][p] + 1];
    SumUpdate(pods[i], p, pods[i][p] + 1);
    assert PodSums(pods[i := pod]) == PodSums(pods)[i := Sum(pod)];
    SumUpdate(PodSums(pods), i, Sum(pod));
    var sums := WorkloadSums(s.pods);
    var total := Sum(PodSums(pods[i := pod]));
    assert WorkloadSums(s.pods[w := pods[i := pod]]) == sums[w := total];
    SumUpdate(sums, w, total);
    hide Sum;
  }

  lemma StartFillsOne(fleet: seq<Workload>, s: State, w: nat)
    requires |s.pods| == |fleet| && w < |fleet| && |s.pods[w]| < MostPods(fleet[w])
    ensures var t := s.(pods := s.pods[w := s.pods[w] + [Idle(fleet[w].processes)]]);
            Sum(MissingPods(fleet, t)) == Sum(MissingPods(fleet, s)) - 1
  {
    var t := s.(pods := s.pods[w := s.pods[w] + [Idle(fleet[w].processes)]]);
    var missing := MissingPods(fleet, s);
    assert MissingPods(fleet, t) == missing[w := missing[w] - 1];
    SumUpdate(missing, w, missing[w] - 1);
    hide Sum, MostPods;
  }

  ghost predicate AllOpen(fleet: seq<Workload>, limit: int, s: State)
    requires |s.pods| == |fleet|
  {
    && s.migration == NotNegative(limit)
    && (forall w :: 0 <= w < |fleet| ==> |s.pods[w]| == MostPods(fleet[w]))
    && forall w, i, p :: 0 <= w < |fleet| && 0 <= i < |s.pods[w]| && 0 <= p < |s.pods[w][i]| ==>
         s.pods[w][i][p] == fleet[w].perProcess
  }

  lemma AllOpenIsPeak(fleet: seq<Workload>, limit: int, s: State)
    requires Inv(fleet, limit, s) && AllOpen(fleet, limit, s)
    ensures Connected(s) == Peak(fleet, limit)
  {
    forall w | 0 <= w < |fleet| ensures WorkloadSums(s.pods)[w] == Rooms(fleet)[w] {
      var pods := s.pods[w];
      assert GoodWorkload(fleet[w], s.desired[w], pods);
      forall i | 0 <= i < |pods| ensures PodSums(pods)[i] == PodRoom(fleet[w]) {
        assert GoodPod(fleet[w], pods[i]);
        SumBound(pods[i], fleet[w].perProcess);
      }
      SumBound(PodSums(pods), PodRoom(fleet[w]));
    }
    assert WorkloadSums(s.pods) == Rooms(fleet);
    hide Sum, MostPods;
  }

  /** In a scaled-up state that is not at the peak something can be added. */
  lemma CanGrow(fleet: seq<Workload>, limit: int, s: State) returns (a: Action)
    requires Inv(fleet, limit, s) && ScaledUp(fleet, s) && !AllOpen(fleet, limit, s)
    ensures Enabled(fleet, limit, s, a) && (a.StartPod? || a.Open? || a.OpenMigration?)
    ensures a.StartPod? ==> |s.pods[a.w]| < MostPods(fleet[a.w])
  {
    if s.migration != NotNegative(limit) {
      a := OpenMigration;
    } else if exists w :: 0 <= w < |fleet| && |s.pods[w]| != MostPods(fleet[w]) {
      var w :| 0 <= w < |fleet| && |s.pods[w]| != MostPods(fleet[w]);
      assert GoodWorkload(fleet[w], s.desired[w], s.pods[w]);
      MayStartIff(fleet[w].rollout, s.desired[w], |s.pods[w]|);
      a := StartPod(w);
    } else {
      var w, i, p :| 0 <= w < |fleet| && 0 <= i < |s.pods[w]| && 0 <= p < |s.pods[w][i]|
                     && s.pods[w][i][p] != fleet[w].perProcess;
      assert GoodWorkload(fleet[w], s.desired[w], s.pods[w]) && GoodPod(fleet[w], s.pods[w][i]);
      a := Open(w, i, p);
    }
  }

  /** From any scaled-up state the fleet can go on to its peak. */
  lemma {:induction false} Climb(fleet: seq<Workload>, limit: int, states: seq<State>) returns (more: seq<State>)
    requires Run(fleet, limit, states) && ScaledUp(fleet, states[|states| - 1])
    ensures Run(fleet, limit, more) && Connected(more[|more| - 1]) == Peak(fleet, limit)
    decreases Sum(MissingPods(fleet, states[|states| - 1])),
              Peak(fleet, limit) - Connected(states[|states| - 1])
  {
    var s := states[|states| - 1];
    RunKeepsInv(fleet, limit, states);
    if AllOpen(fleet, limit, s) {
      AllOpenIsPeak(fleet, limit, s);
      more := states;
    } else {
      var a := CanGrow(fleet, limit, s);
      var t := Apply(fleet, limit, s, a);
      StepKeepsInv(fleet, limit, s, a);
      InvBounds(fleet, limit, t);
      Extend(fleet, limit, states, a);
      Grown(fleet, limit, s, a);
      more := Climb(fleet, limit, states + [t]);
    }
  }

  lemma Extend(fleet: seq<Workload>, limit: int, states: seq<State>, a: Action)
    requires Run(fleet, limit, states) && Inv(fleet, limit, states[|states| - 1])
    requires Enabled(fleet, limit, states[|states| - 1], a)
    ensures Run(fleet, limit, states + [Apply(fleet, limit, states[|states| - 1], a)])
  {
    var t := Apply(fleet, limit, states[|states| - 1], a);
    var longer := states + [t];
    assert Follows(fleet, limit, states[|states| - 1], t);
    forall k | 0 <= k < |longer| - 1 ensures Follows(fleet, limit, longer[k], longer[k + 1]) {
      if k < |states| - 1 {
        assert longer[k] == states[k] && longer[k + 1] == states[k + 1];
      }
    }
    hide Follows;
  }

  lemma Grown(fleet: seq<Workload>, limit: int, s: State, a: Action)
    requires Inv(fleet, limit, s) && ScaledUp(fleet, s) && Enabled(fleet, limit, s, a)
    requires (a.StartPod? && |s.pods[a.w]| < MostPods(fleet[a.w])) || a.Open? || a.OpenMigration?
    ensures var t := Apply(fleet, limit, s, a);
            && ScaledUp(fleet, t)
            && (if a.StartPod? then Sum(MissingPods(fleet, t)) < Sum(MissingPods(fleet, s))
                else Sum(MissingPods(fleet, t)) == Sum(MissingPods(fleet, s)) && Connected(t) == Connected(s) + 1)
  {
    hide Sum, MostPods, SurgeAt;
    match a {
      case StartPod(w) => StartFillsOne(fleet, s, w);
      case Open(w, i, p) =>
        OpenAddsOne(s, w, i, p);
        assert MissingPods(fleet, Apply(fleet, limit, s, a)) == MissingPods(fleet, s);
      case OpenMigration =>
        assert MissingPods(fleet, Apply(fleet, limit, s, a)) == MissingPods(fleet, s);
      case _ =>
    }
  }

  // ----- Safety, exactly -----

  ghost predicate Safe(fleet: seq<Workload>, limit: int, usable: int) {
    forall states :: Run(fleet, limit, states) ==> Connected(states[|states| - 1]) <= usable
  }

  /** A fleet never exceeds `usable` connections, in any run, exactly if its peak does not. */
  lemma SafeIffPeak(fleet: seq<Workload>, limit: int, usable: int)
    ensures Safe(fleet, limit, usable) <==> Peak(fleet, limit) <= usable
  {
    if Peak(fleet, limit) <= usable {
      forall states | Run(fleet, limit, states) ensures Connected(states[|states| - 1]) <= usable {
        RunKeepsInv(fleet, limit, states);
        InvBounds(fleet, limit, states[|states| - 1]);
      }
    } else {
      var s := State(seq(|fleet|, w requires 0 <= w < |fleet| => NotNegative(fleet[w].max)), seq(|fleet|, w => []), 0);
      assert Run(fleet, limit, [s]) && [s][|[s]| - 1] == s;
      var more := Climb(fleet, limit, [s]);
    }
    hide Run, Connected, Peak;
  }

  /** The fleet a budget describes. */
  ghost predicate Describes(fleet: seq<Workload>, budgets: seq<Budget>) {
    && |fleet| == |budgets|
    && forall w :: 0 <= w < |fleet| ==>
         && budgets[w].replicas == fleet[w].max && IsSurge(fleet[w].rollout, fleet[w].max, budgets[w].surge)
         && budgets[w].processes == fleet[w].processes && budgets[w].perProcess == fleet[w].perProcess
  }

  /** No negative replicas and no negative surge: what Kubernetes itself accepts. */
  ghost predicate NoNegatives(budgets: seq<Budget>) {
    forall w :: 0 <= w < |budgets| ==> budgets[w].replicas >= 0 && budgets[w].surge >= 0
  }

  ghost predicate AllRun(budgets: seq<Budget>) {
    forall w :: 0 <= w < |budgets| ==> budgets[w].replicas > 0
  }

  lemma RoomWithinConnections(w: Workload, b: Budget)
    requires Describes([w], [b]) && b.replicas >= 0 && b.surge >= 0
    ensures Room(w) <= Connections(b)
    ensures b.replicas > 0 ==> Room(w) == Connections(b)
  {
    assert [w][0] == w && [b][0] == b;
    var pods := b.replicas + b.surge;
    assert MostPods(w) <= pods;
    MulMonotone(MostPods(w), pods, PodRoom(w));
    assert pods * (b.processes * b.perProcess) == pods * b.processes * b.perProcess;
    hide SurgeAt;
  }

  lemma {:induction false} SumWithinTotal(fleet: seq<Workload>, budgets: seq<Budget>)
    requires Describes(fleet, budgets) && NoNegatives(budgets)
    ensures Sum(Rooms(fleet)) <= TotalOf(budgets)
    ensures AllRun(budgets) ==> Sum(Rooms(fleet)) == TotalOf(budgets)
  {
    if fleet != [] {
      SumFirst(Rooms(fleet));
      assert Rooms(fleet)[1..] == Rooms(fleet[1..]);
      RoomWithinConnections(fleet[0], budgets[0]);
      SumWithinTotal(fleet[1..], budgets[1..]);
    }
    hide Sum, Room, Connections;
  }

  lemma {:induction false} SumFirst(xs: seq<nat>)
    requires xs != []
    ensures Sum(xs) == xs[0] + Sum(xs[1..])
  {
    if |xs| > 1 {
      var n := |xs| - 1;
      SumFirst(xs[..n]);
      assert xs[..n][1..] == xs[1..][..n - 1];
    }
  }

  /** An accepted manifest without negative numbers describes a fleet that no run, rollout or scaling takes above
      what the server has left after all its reserves. */
  lemma AcceptedIsSafe(fleet: seq<Workload>, budgets: seq<Budget>, limits: Limits)
    requires Describes(fleet, budgets) && NoNegatives(budgets) && limits.migration >= 0
    requires Required(budgets, limits) <= Usable(limits)
    ensures Safe(fleet, limits.migration, Usable(limits))
  {
    SumWithinTotal(fleet, budgets);
    SafeIffPeak(fleet, limits.migration, Usable(limits));
    hide Sum, Safe, Usable, TotalOf;
  }

  /** The fleet a manifest's deployments make, with the autoscalers' maxima. */
  function FleetOf(owners: seq<Deployment>, hpa: map<string, int>): seq<Workload>
    requires forall i :: 0 <= i < |owners| ==> BudgetOf(owners[i], hpa).Ok?
  {
    seq(|owners|, i requires 0 <= i < |owners| => WorkloadOf(owners[i], hpa))
  }

  function WorkloadOf(d: Deployment, hpa: map<string, int>): Workload
    requires BudgetOf(d, hpa).Ok?
  {
    Workload(ReplicasOf(d, hpa), d.strategy.rollout, d.processes.value, d.pool.value + d.overflow.value)
  }

  /** From the documents to every run: what the validator accepts is safe to deploy, scale and roll out. */
  lemma ValidatedIsSafe(docs: seq<Doc>, budgets: seq<Budget>, limits: Limits)
    requires BudgetsOf(Owners(docs), HpaOf(docs), budgets) && Required(budgets, limits) <= Usable(limits)
    requires NoNegatives(budgets) && limits.migration >= 0
    ensures Safe(FleetOf(Owners(docs), HpaOf(docs)), limits.migration, Usable(limits))
  {
    var owners, hpa := Owners(docs), HpaOf(docs);
    var fleet := FleetOf(owners, hpa);
    hide Owners, HpaOf;
    forall w | 0 <= w < |fleet|
      ensures && budgets[w].replicas == fleet[w].max
              && IsSurge(fleet[w].rollout, fleet[w].max, budgets[w].surge)
              && budgets[w].processes == fleet[w].processes && budgets[w].perProcess == fleet[w].perProcess
    {
      assert BudgetOf(owners[w], hpa) == Ok(budgets[w]);
    }
    hide Safe, Usable, Required, BudgetOf;
    AcceptedIsSafe(fleet, budgets, limits);
  }

  /** With at least one replica everywhere, what makes a fleet safe is the required number with the migration's
      share counted as zero when it is negative: for a share that is not, exactly the check that is made. */
  lemma SafeIffRequired(fleet: seq<Workload>, budgets: seq<Budget>, limits: Limits)
    requires Describes(fleet, budgets) && NoNegatives(budgets) && AllRun(budgets)
    ensures Safe(fleet, limits.migration, Usable(limits))
            <==> TotalOf(budgets) + NotNegative(limits.migration) <= Usable(limits)
    ensures limits.migration >= 0 ==>
              (Safe(fleet, limits.migration, Usable(limits)) <==> Required(budgets, limits) <= Usable(limits))
  {
    SumWithinTotal(fleet, budgets);
    SafeIffPeak(fleet, limits.migration, Usable(limits));
    hide Sum, Safe, Usable, TotalOf;
  }

  const SHORT_LIMITS := Limits(10, 0, 0, 0, -2, 10)

  const GREEDY := Deployment("api", Some("api"), Some("api"), Some(1), Some(12), Some(0), None, Some(1),
                             Declared(Recreate))

  const SHORT_DOCS := [ConfigMap("testlookup-config", SHORT_LIMITS), Deploy(GREEDY)]

  lemma ShortDocsRead()
    ensures ConfigOf(SHORT_DOCS) == Some(SHORT_LIMITS)
    ensures Owners(SHORT_DOCS) == [GREEDY] && HpaOf(SHORT_DOCS) == map[]
  {
    var docs := SHORT_DOCS;
    assert docs[..1] == [docs[0]] && docs[..1][..0] == [];
    assert Owners([]) == [] && HpaOf([]) == map[];
    OwnersSnoc(docs, 0);
    OwnersSnoc(docs, 1);
    HpaSnoc(docs, 0);
    HpaSnoc(docs, 1);
    assert docs[..0] == [] && docs[..2] == docs;
  }

  const GREEDY_BUDGET := Budget("api", 1, 0, 1, 12)

  const GREEDY_FLEET := [Workload(1, Recreate, 1, 12)]

  lemma ShortBudget()
    ensures BudgetsOf(Owners(SHORT_DOCS), HpaOf(SHORT_DOCS), [GREEDY_BUDGET])
    ensures TotalOf([GREEDY_BUDGET]) == 12
  {
    ShortDocsRead();
    assert BudgetOf(GREEDY, map[]) == Ok(GREEDY_BUDGET);
    assert [GREEDY_BUDGET][1..] == [];
    hide Owners, HpaOf, ConfigOf;
  }

  /** The manifest validator does not check the sign of the migration's share, and a negative one buys the
      application connections the server does not have: this manifest passes every check and is not safe. */
  lemma NegativeMigrationAccepted()
    ensures ConfigOf(SHORT_DOCS) == Some(SHORT_LIMITS)
    ensures BudgetsOf(Owners(SHORT_DOCS), HpaOf(SHORT_DOCS), [GREEDY_BUDGET])
    ensures Required([GREEDY_BUDGET], SHORT_LIMITS) <= Usable(SHORT_LIMITS)
    ensures Required([GREEDY_BUDGET], SHORT_LIMITS) <= SHORT_LIMITS.declaredRequired
    ensures Describes(GREEDY_FLEET, [GREEDY_BUDGET])
    ensures !Safe(GREEDY_FLEET, SHORT_LIMITS.migration, Usable(SHORT_LIMITS))
  {
    hide Safe, ConfigOf, Owners, HpaOf, BudgetsOf, TotalOf, Required, Usable, Describes, GREEDY, GREEDY_BUDGET;
    hide GREEDY_FLEET, SHORT_DOCS, SHORT_LIMITS;
    ShortDocsRead();
    ShortBudget();
    ShortNumbers();
    GreedyDescribed();
    SafeIffRequired(GREEDY_FLEET, [GREEDY_BUDGET], SHORT_LIMITS);
  }

  lemma ShortNumbers()
    ensures var required, usable := Required([GREEDY_BUDGET], SHORT_LIMITS), Usable(SHORT_LIMITS);
            && required <= usable < TotalOf([GREEDY_BUDGET]) && required <= SHORT_LIMITS.declaredRequired
            && NotNegative(SHORT_LIMITS.migration) == 0
  {
    ShortBudget();
    hide TotalOf, GREEDY_BUDGET;
  }

  lemma GreedyDescribed()
    ensures var budgets := [GREEDY_BUDGET];
            Describes(GREEDY_FLEET, budgets) && NoNegatives(budgets) && AllRun(budgets)
  {
  }
}

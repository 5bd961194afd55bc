/**
 The PostgreSQL connection budget of a rendered Kubernetes fleet: what the validator computes from the manifest,
 and a machine of the fleet it is meant to keep within the server's limit.
 */
module FleetBudget {
  import opened Options

  // ----- The manifest -----

  datatype Rollout = Recreate | Count(n: int) | Percent(p: int)

  /** A deployment's strategy: absent, a rollout, or a rolling update without `maxSurge`. */
  datatype Strategy = Absent | Declared(rollout: Rollout) | NoMaxSurge

  datatype Deployment = Deployment(
    name: string, component: Option<string>, role: Option<string>, processes: Option<int>, pool: Option<int>,
    overflow: Option<int>, concurrency: Option<int>, replicas: Option<int>, strategy: Strategy)

  datatype Limits = Limits(
    serverMax: int, operationalReserve: int, superuserReserved: int, reserved: int, migration: int,
    declaredRequired: int)

  datatype Doc =
    | ConfigMap(name: string, limits: Limits)
    | Autoscaler(target: string, maxReplicas: int)
    | Deploy(deployment: Deployment)
    | Unrelated

  datatype Budget = Budget(name: string, replicas: int, surge: int, processes: int, perProcess: int)

  datatype Error =
    | NoConfig | ReserveTooLarge | MissingSettings(name: string) | RoleMismatch(name: string)
    | ConcurrencyMismatch(name: string) | BadPool(name: string) | NoStrategy(name: string)
    | ImplicitMaxSurge(name: string) | NoWorkloads | AboveDeclared(required: int) | AboveUsable(required: int)

  /** A hundredth of `n`, rounded up. */
  function Hundredth(n: int): (c: int)
    ensures (c - 1) * 100 < n <= c * 100
  {
    -((-n) / 100)
  }

  /** The extra pods a rollout may run beside `replicas`: none where all are recreated, the number given, or the
      share given, rounded up to a whole pod. */
  ghost predicate IsSurge(rollout: Rollout, replicas: int, surge: int) {
    && (rollout.Recreate? ==> surge == 0)
    && (rollout.Count? ==> surge == rollout.n)
    && (rollout.Percent? ==> (surge - 1) * 100 < replicas * rollout.p <= surge * 100)
  }

  function SurgeAt(rollout: Rollout, replicas: int): (surge: int)
    ensures IsSurge(rollout, replicas, surge)
  {
    match rollout
    case Recreate => 0
    case Count(n) => n
    case Percent(p) => Hundredth(replicas * p)
  }

  function Connections(b: Budget): int {
    (b.replicas + b.surge) * b.processes * b.perProcess
  }

  predicate OwnsConnections(d: Deployment) {
    d.component == Some("api") || d.component == Some("worker")
  }

  function ReplicasOf(d: Deployment, hpa: map<string, int>): int {
    if d.name in hpa then hpa[d.name] else if d.replicas.Some? then d.replicas.value else 1
  }

  /** The budget line of a deployment, or the first of its faults. */
  function BudgetOf(d: Deployment, hpa: map<string, int>): (r: Result<Budget, Error>)
    ensures r.Ok? <==>
            && d.role.Some? && d.processes.Some? && d.pool.Some? && d.overflow.Some?
            && d.role == d.component && (d.component == Some("worker") ==> d.concurrency == d.processes)
            && d.processes.value >= 1 && d.pool.value >= 1 && d.overflow.value >= 0 && d.strategy.Declared?
    ensures r.Ok? ==> r.value.processes >= 1 && r.value.perProcess >= 1
    ensures r.Ok? ==>
              && r.value.name == d.name && r.value.processes == d.processes.value
              && r.value.perProcess - d.pool.value == d.overflow.value
              && IsSurge(d.strategy.rollout, r.value.replicas, r.value.surge)
    ensures r.Ok? && d.name in hpa ==> r.value.replicas == hpa[d.name]
    ensures r.Ok? && d.name !in hpa ==>
              Some(r.value.replicas) == d.replicas || (d.replicas.None? && r.value.replicas == 1)
    ensures var missing := d.role.None? || d.processes.None? || d.pool.None? || d.overflow.None?;
            && (r == Err(MissingSettings(d.name)) <==> missing)
            && (r == Err(RoleMismatch(d.name)) <==> !missing && d.role != d.component)
            && (r == Err(ConcurrencyMismatch(d.name)) <==>
                  !missing && d.role == d.component == Some("worker") && d.concurrency != d.processes)
    ensures r == Err(NoStrategy(d.name)) ==> d.strategy.Absent?
    ensures r == Err(ImplicitMaxSurge(d.name)) ==> d.strategy.NoMaxSurge?
    ensures r == Err(BadPool(d.name)) ==> d.processes.value < 1 || d.pool.value < 1 || d.overflow.value < 0
    ensures r.Err? ==>
              r.error in {MissingSettings(d.name), RoleMismatch(d.name), ConcurrencyMismatch(d.name), BadPool(d.name),
                          NoStrategy(d.name), ImplicitMaxSurge(d.name)}
  {
    if d.role.None? || d.processes.None? || d.pool.None? || d.overflow.None? then Err(MissingSettings(d.name))
    else if d.role != d.component then Err(RoleMismatch(d.name))
    else if d.component == Some("worker") && d.concurrency != d.processes then Err(ConcurrencyMismatch(d.name))
    else if d.processes.value < 1 || d.pool.value < 1 || d.overflow.value < 0 then Err(BadPool(d.name))
    else
      var replicas := ReplicasOf(d, hpa);
      match d.strategy
      case Absent => Err(NoStrategy(d.name))
      case NoMaxSurge => Err(ImplicitMaxSurge(d.name))
      case Declared(rollout) =>
        Ok(Budget(d.name, replicas, SurgeAt(rollout, replicas), d.processes.value, d.pool.value + d.overflow.value))
  }

  /** The first config map of the fleet's name. */
  function ConfigOf(docs: seq<Doc>): Option<Limits> {
    if docs == [] then None
    else if docs[0].ConfigMap? && docs[0].name == "testlookup-config" then Some(docs[0].limits)
    else ConfigOf(docs[1..])
  }

  /** That is: the limits are those of a config map of the name with none before it. */
  lemma {:induction false} ConfigIsFirst(docs: seq<Doc>)
    ensures ConfigOf(docs).None? <==> forall i :: 0 <= i < |docs| ==>
              !(docs[i].ConfigMap? && docs[i].name == "testlookup-config")
    ensures ConfigOf(docs).Some? ==>
              exists i :: && 0 <= i < |docs| && docs[i] == ConfigMap("testlookup-config", ConfigOf(docs).value)
                          && forall j :: 0 <= j < i ==> !(docs[j].ConfigMap? && docs[j].name == "testlookup-config")
  {
    if docs != [] && !(docs[0].ConfigMap? && docs[0].name == "testlookup-config") {
      ConfigIsFirst(docs[1..]);
      assert forall i :: 0 < i < |docs| ==> docs[i] == docs[1..][i - 1];
      if ConfigOf(docs).Some? {
        var i :| && 0 <= i < |docs[1..]| && docs[1..][i] == ConfigMap("testlookup-config", ConfigOf(docs).value)
                 && forall j :: 0 <= j < i ==>
                      !(docs[1..][j].ConfigMap? && docs[1..][j].name == "testlookup-config");
        assert docs[i + 1] == ConfigMap("testlookup-config", ConfigOf(docs).value);
      }
    }
  }

  /** The autoscalers' maxima; a later one for the same target replaces an earlier one. */
  function HpaOf(docs: seq<Doc>): map<string, int> {
    if docs == [] then map[]
    else
      var last := docs[|docs| - 1];
      var init := HpaOf(docs[..|docs| - 1]);
      if last.Autoscaler? then init[last.target := last.maxReplicas] else init
  }

  function Owners(docs: seq<Doc>): seq<Deployment> {
    if docs == [] then []
    else
      var last := docs[|docs| - 1];
      Owners(docs[..|docs| - 1])
      + (if last.Deploy? && OwnsConnections(last.deployment) then [last.deployment] else [])
  }

  ghost predicate BudgetsOf(owners: seq<Deployment>, hpa: map<string, int>, budgets: seq<Budget>) {
    |budgets| == |owners| && forall i :: 0 <= i < |owners| ==> BudgetOf(owners[i], hpa) == Ok(budgets[i])
  }

  /** The first deployment at fault decides the error. */
  ghost predicate FirstFault(owners: seq<Deployment>, hpa: map<string, int>, e: Error) {
    exists i :: && 0 <= i < |owners| && BudgetOf(owners[i], hpa) == Err(e)
                && forall j :: 0 <= j < i ==> BudgetOf(owners[j], hpa).Ok?
  }

  lemma OwnersSnoc(docs: seq<Doc>, i: nat)
    requires i < |docs|
    ensures Owners(docs[..i + 1])
            == Owners(docs[..i])
               + if docs[i].Deploy? && docs[i].deployment.component in {Some("api"), Some("worker")}
                 then [docs[i].deployment] else []
    ensures Owners(docs[..i + 1]) <= Owners(docs)
    decreases |docs| - i
  {
    assert docs[..i + 1][..i] == docs[..i];
    if i + 1 < |docs| {
      OwnersSnoc(docs, i + 1);
    } else {
      assert docs[..i + 1] == docs;
    }
  }

  lemma HpaSnoc(docs: seq<Doc>, i: nat)
    requires i < |docs|
    ensures HpaOf(docs[..i + 1])
            == if docs[i].Autoscaler? then HpaOf(docs[..i])[docs[i].target := docs[i].maxReplicas]
               else HpaOf(docs[..i])
  {
    assert docs[..i + 1][..i] == docs[..i];
  }

  predicate Scales(doc: Doc, target: string) {
    doc.Autoscaler? && doc.target == target
  }

  /** The document at `i` is the last autoscaler of its target. */
  ghost predicate LastScaler(docs: seq<Doc>, i: nat, target: string) {
    && i < |docs| && Scales(docs[i], target)
    && forall j :: i < j < |docs| ==> !Scales(docs[j], target)
  }

  /** A target has a maximum exactly if some autoscaler names it, and it is that of the last one. */
  lemma {:induction false} HpaIsLast(docs: seq<Doc>, target: string)
    ensures target in HpaOf(docs) <==> exists i: nat :: LastScaler(docs, i, target)
    ensures forall i: nat :: LastScaler(docs, i, target) ==>
              target in HpaOf(docs) && HpaOf(docs)[target] == docs[i].maxReplicas
  {
    if docs != [] {
      var n := |docs| - 1;
      var init := docs[..n];
      HpaIsLast(init, target);
      if Scales(docs[n], target) {
        assert LastScaler(docs, n, target);
        assert forall i: nat :: LastScaler(docs, i, target) ==> i == n;
      } else {
        forall i: nat
          ensures LastScaler(docs, i, target) <==> LastScaler(init, i, target)
        {
          assert forall j :: 0 <= j < n ==> init[j] == docs[j];
        }
      }
    }
  }

  method AutoscalerMaxima(docs: seq<Doc>) returns (hpa: map<string, int>)
    ensures hpa == HpaOf(docs)
    ensures forall target :: target in hpa <==> exists i: nat :: LastScaler(docs, i, target)
    ensures forall i: nat, target :: LastScaler(docs, i, target) ==> target in hpa && hpa[target] == docs[i].maxReplicas
  {
    hpa := map[];
    var i := 0;
    assert docs[..0] == [];
    while i < |docs|
      invariant 0 <= i <= |docs|
      invariant hpa == HpaOf(docs[..i])
    {
      HpaSnoc(docs, i);
      if docs[i].Autoscaler? {
        hpa := hpa[docs[i].target := docs[i].maxReplicas];
      }
      i := i + 1;
    }
    assert docs[..i] == docs;
    forall target
      ensures target in hpa <==> exists i: nat :: LastScaler(docs, i, target)
      ensures forall i: nat :: LastScaler(docs, i, target) ==> target in hpa && hpa[target] == docs[i].maxReplicas
    {
      HpaIsLast(docs, target);
    }
  }

  /** Why no budget can be calculated: no configuration, a reserve that leaves nothing, the first deployment at
      fault, or no deployment that owns connections. */
  ghost predicate CalculationFails(docs: seq<Doc>, e: Error) {
    match ConfigOf(docs)
    case None => e == NoConfig
    case Some(limits) =>
      if limits.operationalReserve >= limits.serverMax then e == ReserveTooLarge
      else FirstFault(Owners(docs), HpaOf(docs), e) || (Owners(docs) == [] && e == NoWorkloads)
  }

  lemma NoOwners()
    ensures Owners([]) == []
  {
  }

  method CalculateBudget(docs: seq<Doc>) returns (r: Result<(seq<Budget>, Limits), Error>)
    ensures r.Ok? ==>
              && ConfigOf(docs) == Some(r.value.1) && r.value.1.operationalReserve < r.value.1.serverMax
              && r.value.0 != [] && BudgetsOf(Owners(docs), HpaOf(docs), r.value.0)
    ensures r.Err? ==> CalculationFails(docs, r.error)
  {
    hide Owners, HpaOf, ConfigOf, BudgetOf;
    var config := ConfigOf(docs);
    if config.None? {
      return Err(NoConfig);
    }
    var limits := config.value;
    if limits.operationalReserve >= limits.serverMax {
      return Err(ReserveTooLarge);
    }
    var hpa := AutoscalerMaxima(docs);
    var budgets := [];
    var i := 0;
    assert docs[..0] == [];
    NoOwners();
    while i < |docs|
      invariant 0 <= i <= |docs|
      invariant BudgetsOf(Owners(docs[..i]), hpa, budgets)
    {
      OwnersSnoc(docs, i);
      if docs[i].Deploy? && OwnsConnections(docs[i].deployment) {
        var budget := BudgetOf(docs[i].deployment, hpa);
        if budget.Err? {
          assert Owners(docs)[|budgets|] == docs[i].deployment;
          return Err(budget.error);
        }
        budgets := budgets + [budget.value];
      }
      i := i + 1;
    }
    assert docs[..i] == docs;
    if budgets == [] {
      return Err(NoWorkloads);
    }
    r := Ok((budgets, limits));
  }

  function TotalOf(budgets: seq<Budget>): int {
    if budgets == [] then 0 else Connections(budgets[0]) + TotalOf(budgets[1..])
  }

  function Required(budgets: seq<Budget>, limits: Limits): int {
    TotalOf(budgets) + limits.migration
  }

  function Usable(limits: Limits): int {
    limits.serverMax - limits.operationalReserve - limits.superuserReserved - limits.reserved
  }

  method Validate(docs: seq<Doc>) returns (r: Result<(seq<Budget>, Limits), Error>)
    ensures r.Ok? ==>
              && ConfigOf(docs) == Some(r.value.1) && BudgetsOf(Owners(docs), HpaOf(docs), r.value.0)
              && Required(r.value.0, r.value.1) <= Usable(r.value.1)
              && Required(r.value.0, r.value.1) <= r.value.1.declaredRequired
    ensures r.Ok? ==>
              var l := r.value.1;
              Required(r.value.0, l) + l.operationalReserve + l.superuserReserved + l.reserved <= l.serverMax
    ensures r.Err? && !r.error.AboveDeclared? && !r.error.AboveUsable? ==> CalculationFails(docs, r.error)
    ensures r.Err? && (r.error.AboveDeclared? || r.error.AboveUsable?) ==>
              exists budgets :: && ConfigOf(docs).Some? && BudgetsOf(Owners(docs), HpaOf(docs), budgets)
                                && r.error.required == Required(budgets, ConfigOf(docs).value)
                                && r.error.required > if r.error.AboveDeclared?
                                                      then ConfigOf(docs).value.declaredRequired
                                                      else Usable(ConfigOf(docs).value)
  {
    r := CalculateBudget(docs);
    if r.Err? {
      assert FirstFault(Owners(docs), HpaOf(docs), r.error) ==> !r.error.AboveDeclared? && !r.error.AboveUsable?;
      return;
    }
    var (budgets, limits) := r.value;
    var required := Required(budgets, limits);
    if required > limits.declaredRequired {
      return Err(AboveDeclared(required));
    }
    if required > Usable(limits) {
      return Err(AboveUsable(required));
    }
  }
}

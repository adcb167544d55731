/**
 * The phase pipeline of the controller, the nested pipeline for the workload cluster, the status
 * they leave behind, and what that status means after any history of passes.
 */
module Phases {
  import opened Common

  datatype ConditionStatus = ConditionTrue | ConditionFalse | ConditionUnknown
  datatype Condition = Condition(status: ConditionStatus, reason: string)
  type Conditions = map<string, Condition>

  const READY := "Ready"
  const PAUSED := "Paused"
  const WORKLOAD_PREFIX := "Workload"

  datatype Phase = Phase(name: string, condition: string, failedReason: string)

  const PHASES: seq<Phase> := [
    Phase("CA certificates", "CACertificatesReady", "CACertificatesFailed"),
    Phase("CA bundles", "CABundleReady", "CABundleFailed"),
    Phase("apiserver service", "APIServerServiceReady", "APIServerServiceFailed"),
    Phase("sync controlplane endpoint", "SyncControlPlaneEndpointReady", "SyncControlPlaneEndpointFailed"),
    Phase("tlsroutes", "APIServerTLSRoutesReady", "APIServerTLSRoutesFailed"),
    Phase("certificates", "CertificatesReady", "CertificatesFailed"),
    Phase("etcd cluster", "EtcdClusterReady", "EtcdClusterFailed"),
    Phase("internal kubeconfig", "InternalKubeconfigReady", "InternalKubeconfigFailed"),
    Phase("apiserver deployments", "APIServerDeploymentsReady", "APIServerDeploymentsFailed"),
    Phase("kubernetes service", "KubernetesServiceReady", "KubernetesServiceFailed"),
    Phase("admin kubeconfig", "AdminKubeconfigReady", "AdminKubeconfigFailed"),
    Phase("CA rotation annotation", "CARotationAnnotationReady", "CARotationAnnotationFailed"),
    Phase("workload cluster resources", "WorkloadSetupReady", "WorkloadSetupFailed")]

  const DEPLOYMENTS := 8
  const ADMIN_KUBECONFIG := 10
  const WORKLOAD := 12

  const WORKLOAD_PHASES: seq<Phase> := [
    Phase("RBAC", "WorkloadRBACReady", "WorkloadRBACFailed"),
    Phase("cluster-info", "WorkloadClusterInfoReady", "WorkloadClusterInfoFailed"),
    Phase("kubeadm-config", "WorkloadKubeadmConfigReady", "WorkloadKubeadmConfigFailed"),
    Phase("kubelet-config", "WorkloadKubeletConfigReady", "WorkloadKubeletConfigFailed"),
    Phase("kube-proxy", "WorkloadKubeProxyReady", "WorkloadKubeProxyFailed"),
    Phase("coredns", "WorkloadCoreDNSReady", "WorkloadCoreDNSFailed"),
    Phase("konnectivity", "WorkloadKonnectivityReady", "WorkloadKonnectivityFailed")]

  // ---------------------------------------------------------------- distinct names

  ghost predicate DistinctConditions(phases: seq<Phase>) {
    forall i, j :: 0 <= i < j < |phases| ==> phases[i].condition != phases[j].condition
  }

  lemma ConditionNamesDiffer()
    ensures DistinctConditions(PHASES) && DistinctConditions(WORKLOAD_PHASES)
    ensures forall i, j :: 0 <= i < |PHASES| && 0 <= j < |WORKLOAD_PHASES| ==>
              PHASES[i].condition != WORKLOAD_PHASES[j].condition
    ensures forall i :: 0 <= i < |PHASES| ==> PHASES[i].condition !in {READY, PAUSED}
    ensures forall i :: 0 <= i < |WORKLOAD_PHASES| ==> WORKLOAD_PHASES[i].condition !in {READY, PAUSED}
  {
  }

  /** Conditions the Ready summary looks at. */
  predicate Applicable(type_: string) {
    type_ != READY && type_ != PAUSED && !(WORKLOAD_PREFIX <= type_)
  }

  /** The phases before the workload resources count for Ready; the workload phase, by its name, does not. */
  lemma ApplicablePhases(i: nat)
    requires i < |PHASES|
    ensures Applicable(PHASES[i].condition) <==> i != WORKLOAD
  {
    assert PHASES[WORKLOAD].condition[..8] == WORKLOAD_PREFIX;
    if i != WORKLOAD {
      assert PHASES[i].condition[0] != 'W';
    }
  }

  lemma WorkloadPhasesAreNotApplicable(i: nat)
    requires i < |WORKLOAD_PHASES|
    ensures !Applicable(WORKLOAD_PHASES[i].condition)
  {
    assert WORKLOAD_PHASES[i].condition[..8] == WORKLOAD_PREFIX;
  }

  // ---------------------------------------------------------------- one pipeline

  /** An empty reason without an error counts as done. */
  predicate Passes(o: Outcome) {
    o.Done? || o == NotReady("")
  }

  function ConditionFor(phase: Phase, o: Outcome): Condition {
    match o
    case Failed(_) => Condition(ConditionFalse, phase.failedReason)
    case NotReady(reason) =>
      if reason != "" then Condition(ConditionFalse, reason) else Condition(ConditionTrue, "ReconcileSucceeded")
    case Done => Condition(ConditionTrue, "ReconcileSucceeded")
  }

  /** Index of the first phase that does not pass. */
  function FirstFailure(outcomes: seq<Outcome>): (n: nat)
    ensures n <= |outcomes|
    ensures forall i :: 0 <= i < n ==> Passes(outcomes[i])
    ensures n < |outcomes| ==> !Passes(outcomes[n])
  {
    if outcomes == [] || !Passes(outcomes[0]) then 0 else 1 + FirstFailure(outcomes[1..])
  }

  /** A phase runs when all phases before it pass. */
  predicate Reaches(outcomes: seq<Outcome>, i: nat) {
    i < |outcomes| && i <= FirstFailure(outcomes)
  }

  function SetConditions(phases: seq<Phase>, outcomes: seq<Outcome>, n: nat, conditions: Conditions): Conditions
    requires n <= |phases| && n <= |outcomes|
  {
    if n == 0 then conditions
    else SetConditions(phases, outcomes, n - 1, conditions)
         [phases[n - 1].condition := ConditionFor(phases[n - 1], outcomes[n - 1])]
  }

  function Pipeline(phases: seq<Phase>, outcomes: seq<Outcome>, conditions: Conditions): Conditions
    requires |phases| == |outcomes|
  {
    var n := FirstFailure(outcomes);
    SetConditions(phases, outcomes, if n < |outcomes| then n + 1 else n, conditions)
  }

  lemma {:induction false} SetConditionsAt(
    phases: seq<Phase>, outcomes: seq<Outcome>, n: nat, conditions: Conditions, i: nat)
    requires i < n <= |phases| && n <= |outcomes| && DistinctConditions(phases)
    ensures var c := SetConditions(phases, outcomes, n, conditions);
            phases[i].condition in c && c[phases[i].condition] == ConditionFor(phases[i], outcomes[i])
  {
    if i < n - 1 {
      SetConditionsAt(phases, outcomes, n - 1, conditions, i);
    }
  }

  ghost predicate SameAt(c: Conditions, d: Conditions, type_: string) {
    (type_ in c <==> type_ in d) && (type_ in c ==> c[type_] == d[type_])
  }

  lemma {:induction false} SetConditionsElsewhere(
    phases: seq<Phase>, outcomes: seq<Outcome>, n: nat, conditions: Conditions, type_: string)
    requires n <= |phases| && n <= |outcomes|
    requires forall i :: 0 <= i < n ==> phases[i].condition != type_
    ensures SameAt(SetConditions(phases, outcomes, n, conditions), conditions, type_)
  {
    if n > 0 {
      SetConditionsElsewhere(phases, outcomes, n - 1, conditions, type_);
    }
  }

  /** The phases that ran carry the condition of their own outcome; no other condition changes. */
  lemma PipelineSetsReached(phases: seq<Phase>, outcomes: seq<Outcome>, conditions: Conditions)
    requires |phases| == |outcomes| && DistinctConditions(phases)
    ensures var c := Pipeline(phases, outcomes, conditions);
            && (forall i :: 0 <= i < |phases| && Reaches(outcomes, i) ==>
                  phases[i].condition in c && c[phases[i].condition] == ConditionFor(phases[i], outcomes[i]))
            && (forall t :: (forall i :: 0 <= i < |phases| && Reaches(outcomes, i) ==> phases[i].condition != t) ==>
                  SameAt(c, conditions, t))
  {
    var n := if FirstFailure(outcomes) < |outcomes| then FirstFailure(outcomes) + 1 else FirstFailure(outcomes);
    forall i | 0 <= i < |phases| && Reaches(outcomes, i)
      ensures var c := Pipeline(phases, outcomes, conditions);
              phases[i].condition in c && c[phases[i].condition] == ConditionFor(phases[i], outcomes[i])
    {
      SetConditionsAt(phases, outcomes, n, conditions, i);
    }
    forall t | forall i :: 0 <= i < |phases| && Reaches(outcomes, i) ==> phases[i].condition != t
      ensures SameAt(Pipeline(phases, outcomes, conditions), conditions, t)
    {
      assert forall i :: 0 <= i < n ==> Reaches(outcomes, i);
      SetConditionsElsewhere(phases, outcomes, n, conditions, t);
    }
  }

  /** True for a prefix of the phases, and at most one False, for the phase after it. */
  lemma PipelineShape(phases: seq<Phase>, outcomes: seq<Outcome>, conditions: Conditions)
    requires |phases| == |outcomes| && DistinctConditions(phases)
    ensures var c := Pipeline(phases, outcomes, conditions);
            var n := FirstFailure(outcomes);
            && (forall i :: 0 <= i < n ==> phases[i].condition in c && c[phases[i].condition].status == ConditionTrue)
            && (n < |phases| ==> phases[n].condition in c && c[phases[n].condition].status == ConditionFalse)
  {
    PipelineSetsReached(phases, outcomes, conditions);
    assert forall i :: 0 <= i < FirstFailure(outcomes) ==> Reaches(outcomes, i);
    assert FirstFailure(outcomes) < |phases| ==> Reaches(outcomes, FirstFailure(outcomes));
  }

  // ---------------------------------------------------------------- one pass

  datatype Status = Status(conditions: Conditions, ready: bool, initialized: bool)

  /** What the phases of a pass come to; the workload phase comes to what its own pipeline does. */
  datatype Inputs = Inputs(
    networkParses: bool,
    discovery: bool,
    outcomes: seq<Outcome>,
    workloadClient: bool,
    workloadOutcomes: seq<Outcome>)

  type PassInputs = i: Inputs | |i.outcomes| == WORKLOAD && |i.workloadOutcomes| == |WORKLOAD_PHASES|
    witness Inputs(true, true, seq(12, _ => Done), true, seq(7, _ => Done))

  function WorkloadOutcome(inputs: PassInputs): Outcome {
    if !inputs.workloadClient then Failed("workload cluster client")
    else
      var n := FirstFailure(inputs.workloadOutcomes);
      if n < |inputs.workloadOutcomes| then inputs.workloadOutcomes[n] else Done
  }

  /** The workload phase passes exactly if it has a client and its phases pass; else it is the first that does not. */
  lemma WorkloadOutcomeExactly(inputs: PassInputs)
    ensures Passes(WorkloadOutcome(inputs)) <==>
            inputs.workloadClient && forall i :: 0 <= i < |WORKLOAD_PHASES| ==> Passes(inputs.workloadOutcomes[i])
    ensures !inputs.workloadClient ==> WorkloadOutcome(inputs).Failed?
    ensures inputs.workloadClient && !Passes(WorkloadOutcome(inputs)) ==>
              exists n :: && 0 <= n < |WORKLOAD_PHASES| && inputs.workloadOutcomes[n] == WorkloadOutcome(inputs)
                          && forall i :: 0 <= i < n ==> Passes(inputs.workloadOutcomes[i])
  {
    var n := FirstFailure(inputs.workloadOutcomes);
    if n < |inputs.workloadOutcomes| {
      assert !Passes(inputs.workloadOutcomes[n]);
    }
  }

  /** What a condition says about an outcome: an error with the phase's reason, a wait with its own, or success. */
  lemma ConditionForExactly(phase: Phase, o: Outcome)
    ensures var c := ConditionFor(phase, o);
            && (c.status == ConditionTrue <==> o == Done || o == NotReady(""))
            && (o.Failed? ==> c == Condition(ConditionFalse, phase.failedReason))
            && (o.NotReady? && o.reason != "" ==> c == Condition(ConditionFalse, o.reason))
            && (c.status == ConditionTrue ==> c.reason == "ReconcileSucceeded")
  {
  }

  /** The two phases that latch a status field when they pass. */
  lemma LatchingPhases()
    ensures PHASES[DEPLOYMENTS].name == "apiserver deployments" && PHASES[ADMIN_KUBECONFIG].name == "admin kubeconfig"
    ensures PHASES[WORKLOAD].name == "workload cluster resources" && |PHASES| == WORKLOAD + 1
  {
  }

  function AllOutcomes(inputs: PassInputs): seq<Outcome> {
    inputs.outcomes + [WorkloadOutcome(inputs)]
  }

  predicate RunsPhases(inputs: PassInputs) {
    inputs.networkParses && inputs.discovery
  }

  predicate RunsWorkloadPhases(inputs: PassInputs) {
    RunsPhases(inputs) && FirstFailure(AllOutcomes(inputs)) >= WORKLOAD && inputs.workloadClient
  }

  function AfterNormal(s: Status, inputs: PassInputs): Status {
    if !inputs.networkParses then
      s.(conditions := s.conditions[PHASES[WORKLOAD].condition := ConditionFor(PHASES[WORKLOAD], Failed(""))])
    else if !inputs.discovery then s
    else
      var n := FirstFailure(AllOutcomes(inputs));
      Status(
        Pipeline(PHASES, AllOutcomes(inputs), WithWorkloadConditions(inputs, s.conditions)),
        s.ready || n > ADMIN_KUBECONFIG,
        s.initialized || n > DEPLOYMENTS)
  }

  /** The Ready summary over the applicable conditions; without any it is left alone. */
  function Summarize(conditions: Conditions): Conditions {
    if !exists t :: t in conditions && Applicable(t) then conditions
    else if exists t :: t in conditions && Applicable(t) && conditions[t].status == ConditionFalse then
      conditions[READY := Condition(ConditionFalse, "")]
    else if exists t :: t in conditions && Applicable(t) && conditions[t].status == ConditionUnknown then
      conditions[READY := Condition(ConditionUnknown, "")]
    else conditions[READY := Condition(ConditionTrue, "")]
  }

  function WithWorkloadConditions(inputs: PassInputs, conditions: Conditions): Conditions {
    if RunsWorkloadPhases(inputs) then Pipeline(WORKLOAD_PHASES, inputs.workloadOutcomes, conditions) else conditions
  }

  /** The conditions once the first n phases have run. */
  function ConditionsAfter(inputs: PassInputs, conditions: Conditions, n: nat): Conditions
    requires n <= |PHASES|
  {
    SetConditions(PHASES, AllOutcomes(inputs), n,
                  if n <= WORKLOAD then conditions else WithWorkloadConditions(inputs, conditions))
  }

  /** The status once the first n phases have run and passed. */
  function StatusAfter(inputs: PassInputs, s: Status, n: nat): Status
    requires n <= |PHASES|
  {
    Status(ConditionsAfter(inputs, s.conditions, n), s.ready || n > ADMIN_KUBECONFIG, s.initialized || n > DEPLOYMENTS)
  }

  datatype Report = Requeue(seconds: nat) | ReconcileError

  class HostedControlPlane {
    var conditions: Conditions
    var ready: bool
    var initialized: bool

    function View(): Status
      reads this
    {
      Status(conditions, ready, initialized)
    }

    constructor (s: Status)
      ensures View() == s
    {
      conditions, ready, initialized := s.conditions, s.ready, s.initialized;
    }

    /** The nested pipeline; it reports the first phase that does not pass. */
    method ReconcileWorkloadClusterResources(inputs: PassInputs) returns (o: Outcome)
      modifies this`conditions
      ensures o == WorkloadOutcome(inputs)
      ensures conditions == if inputs.workloadClient
                            then Pipeline(WORKLOAD_PHASES, inputs.workloadOutcomes, old(conditions))
                            else old(conditions)
    {
      if !inputs.workloadClient {
        return Failed("workload cluster client");
      }
      var outcomes := inputs.workloadOutcomes;
      for i := 0 to |WORKLOAD_PHASES|
        invariant FirstFailure(outcomes) >= i
        invariant conditions == SetConditions(WORKLOAD_PHASES, outcomes, i, old(conditions))
      {
        var phase := WORKLOAD_PHASES[i];
        conditions := conditions[phase.condition := ConditionFor(phase, outcomes[i])];
        if !Passes(outcomes[i]) {
          assert FirstFailure(outcomes) == i;
          return outcomes[i];
        }
      }
      return Done;
    }

    /** One phase of the controller's pipeline; two of them latch a status field when they pass. */
    method RunPhase(phase: Phase, i: nat, inputs: PassInputs) returns (o: Outcome)
      requires i < |PHASES| && phase == PHASES[i]
      modifies this
      ensures o == AllOutcomes(inputs)[i]
      ensures initialized == (old(initialized) || (i == DEPLOYMENTS && Passes(o)))
      ensures ready == (old(ready) || (i == ADMIN_KUBECONFIG && Passes(o)))
      ensures conditions ==
              (if i == WORKLOAD && inputs.workloadClient
               then Pipeline(WORKLOAD_PHASES, inputs.workloadOutcomes, old(conditions))
               else old(conditions))[phase.condition := ConditionFor(phase, o)]
    {
      if i == WORKLOAD {
        o := ReconcileWorkloadClusterResources(inputs);
      } else {
        o := inputs.outcomes[i];
        if i == DEPLOYMENTS && Passes(o) {
          initialized := true;
        }
        if i == ADMIN_KUBECONFIG && Passes(o) {
          ready := true;
        }
      }
      conditions := conditions[phase.condition := ConditionFor(phase, o)];
    }

    /** Runs the phases until one does not pass. */
    method RunPhases(phases: seq<Phase>, inputs: PassInputs) returns (r: Report)
      requires phases == PHASES && RunsPhases(inputs)
      modifies this
      ensures View() == AfterNormal(old(View()), inputs)
      ensures r == Requeue(60) <==> FirstFailure(AllOutcomes(inputs)) == |PHASES|
      ensures r == Requeue(10) <==>
              && FirstFailure(AllOutcomes(inputs)) < |PHASES|
              && AllOutcomes(inputs)[FirstFailure(AllOutcomes(inputs))].NotReady?
    {
      ghost var all := AllOutcomes(inputs);
      for i := 0 to |phases|
        invariant FirstFailure(all) >= i
        invariant View() == StatusAfter(inputs, old(View()), i)
      {
        OnePhaseMore(inputs, old(conditions), i);
        var o := RunPhase(phases[i], i, inputs);
        if !Passes(o) {
          assert FirstFailure(all) == i;
          PassEnds(old(View()), inputs);
          return if o.Failed? then ReconcileError else Requeue(10);
        }
      }
      PassEnds(old(View()), inputs);
      return Requeue(60);
    }

    method ReconcileNormal(inputs: PassInputs) returns (r: Report)
      modifies this
      ensures View() == AfterNormal(old(View()), inputs)
      ensures r == Requeue(60) <==> RunsPhases(inputs) && FirstFailure(AllOutcomes(inputs)) == |PHASES|
      ensures r == Requeue(10) <==>
              && RunsPhases(inputs) && FirstFailure(AllOutcomes(inputs)) < |PHASES|
              && AllOutcomes(inputs)[FirstFailure(AllOutcomes(inputs))].NotReady?
    {
      if !inputs.networkParses {
        conditions := conditions[PHASES[WORKLOAD].condition :=
          Condition(ConditionFalse, PHASES[WORKLOAD].failedReason)];
        return ReconcileError;
      }
      if !inputs.discovery {
        return ReconcileError;
      }
      r := RunPhases(PHASES, inputs);
    }
  }

  lemma {:induction false} SetConditionsCommute(
    outer: seq<Phase>, outcomes: seq<Outcome>, n: nat,
    inner: seq<Phase>, innerOutcomes: seq<Outcome>, m: nat, conditions: Conditions)
    requires n <= |outer| && n <= |outcomes| && m <= |inner| && m <= |innerOutcomes|
    requires forall i, j :: 0 <= i < |outer| && 0 <= j < |inner| ==> outer[i].condition != inner[j].condition
    ensures SetConditions(inner, innerOutcomes, m, SetConditions(outer, outcomes, n, conditions))
            == SetConditions(outer, outcomes, n, SetConditions(inner, innerOutcomes, m, conditions))
    decreases n + m
  {
    if n > 0 {
      SetConditionsCommute(outer, outcomes, n - 1, inner, innerOutcomes, m, conditions);
      UpdateCommutes(inner, innerOutcomes, m, SetConditions(outer, outcomes, n - 1, conditions),
                     outer[n - 1].condition, ConditionFor(outer[n - 1], outcomes[n - 1]));
    }
  }

  lemma {:induction false} UpdateCommutes(
    inner: seq<Phase>, outcomes: seq<Outcome>, m: nat, conditions: Conditions, type_: string, c: Condition)
    requires m <= |inner| && m <= |outcomes|
    requires forall j :: 0 <= j < |inner| ==> inner[j].condition != type_
    ensures SetConditions(inner, outcomes, m, conditions[type_ := c])
            == SetConditions(inner, outcomes, m, conditions)[type_ := c]
  {
    if m > 0 {
      UpdateCommutes(inner, outcomes, m - 1, conditions, type_, c);
    }
  }

  /** The nested pipeline's conditions do not collide with the outer ones set before it. */
  lemma SetConditionsLate(inputs: PassInputs, conditions: Conditions)
    ensures Pipeline(WORKLOAD_PHASES, inputs.workloadOutcomes,
                     SetConditions(PHASES, AllOutcomes(inputs), WORKLOAD, conditions))
            == SetConditions(PHASES, AllOutcomes(inputs), WORKLOAD,
                             Pipeline(WORKLOAD_PHASES, inputs.workloadOutcomes, conditions))
  {
    ConditionNamesDiffer();
    var n := FirstFailure(inputs.workloadOutcomes);
    SetConditionsCommute(PHASES, AllOutcomes(inputs), WORKLOAD, WORKLOAD_PHASES, inputs.workloadOutcomes,
                         if n < |WORKLOAD_PHASES| then n + 1 else n, conditions);
  }

  /** A pass ends with the status after its passing phases, and the condition of the one that did not pass. */
  lemma PassEnds(s: Status, inputs: PassInputs)
    requires RunsPhases(inputs)
    ensures var n := FirstFailure(AllOutcomes(inputs));
            AfterNormal(s, inputs) ==
            if n == |PHASES| then StatusAfter(inputs, s, n)
            else StatusAfter(inputs, s, n).(conditions := ConditionsAfter(inputs, s.conditions, n + 1))
  {
  }

  /** What running phase n does to the conditions. */
  lemma OnePhaseMore(inputs: PassInputs, conditions: Conditions, n: nat)
    requires RunsPhases(inputs) && n < |PHASES| && FirstFailure(AllOutcomes(inputs)) >= n
    ensures var before := ConditionsAfter(inputs, conditions, n);
            ConditionsAfter(inputs, conditions, n + 1) ==
            (if n == WORKLOAD && inputs.workloadClient then Pipeline(WORKLOAD_PHASES, inputs.workloadOutcomes, before)
             else before)[PHASES[n].condition := ConditionFor(PHASES[n], AllOutcomes(inputs)[n])]
  {
    SetConditionsLate(inputs, conditions);
  }
}

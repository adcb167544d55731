/**
 * Changing the labels of a StatefulSet whose selector is immutable: widen the pod template,
 * wait until the set is ready, delete it while orphaning its pods, and recreate it.
 */
module StatefulSetMigration {
  import opened Common

  /** The remaining immutable fields: service name, pod management policy, volume claim templates. */
  type ImmutableSpec = string

  datatype StatefulSet = StatefulSet(
    selector: Labels, template: Labels, fixed: ImmutableSpec, availableReplicas: int)
  {
    predicate IsReady() {
      availableReplicas >= 1
    }
  }

  /** The API server's state for the set's name. */
  type State = Option<StatefulSet>

  datatype ApplyResult = Applied(statefulSet: StatefulSet) | Forbidden | Invalid

  /** A selector must match the template; selector and immutable fields of an existing set cannot change. */
  function ApiApply(s: State, selector: Labels, template: Labels, fixed: ImmutableSpec): ApplyResult {
    if !Selects(selector, template) then Invalid
    else if s.None? then Applied(StatefulSet(selector, template, fixed, 0))
    else if s.value.selector != selector || s.value.fixed != fixed then Forbidden
    else Applied(s.value.(template := template))
  }

  /** What one reconcile decides from the existing set. */
  datatype Plan = Wait | RefuseLabelChange | ApplyWith(selector: Labels, template: Labels)

  function PlanFor(s: State, labels: Labels): Plan {
    if s.None? then ApplyWith(labels, labels)
    else
      var merged := labels + s.value.template;
      if Selects(labels, s.value.template) then
        if s.value.selector != labels && !s.value.IsReady() then Wait else ApplyWith(labels, labels)
      else if Selects(s.value.selector, merged) then ApplyWith(s.value.selector, merged)
      else if |labels| == |s.value.template| then RefuseLabelChange
      else if s.value.selector != labels && !s.value.IsReady() then Wait
      else ApplyWith(labels, labels)
  }

  datatype Action = Waited | Refused | AppliedSet | DeletedSet | ApplyFailed

  /** One reconcile without API faults. */
  function Step(s: State, labels: Labels, fixed: ImmutableSpec): (State, Action) {
    match PlanFor(s, labels)
    case Wait => (s, Waited)
    case RefuseLabelChange => (s, Refused)
    case ApplyWith(selector, template) =>
      match ApiApply(s, selector, template, fixed)
      case Applied(set_) => (Some(set_), AppliedSet)
      case Forbidden => (None, DeletedSet)
      case Invalid => (s, ApplyFailed)
  }

  /** The API calls that fail: for the set itself, its network policy, and its disruption budget. */
  datatype Faults = Faults(get: bool, apply: bool, delete: bool, policy: bool, budget: bool)

  datatype Result = Ready | NotReadyYet | LabelChangeError | ApiError

  class Cluster {
    var statefulSet: State

    /** Apply, and on a forbidden spec change delete the set, leaving its recreation to the next reconcile. */
    method ReconcileWorkload(
      selectorLabels: Labels, templateLabels: Labels, fixed: ImmutableSpec, faults: Faults)
      returns (r: Result)
      modifies this
      ensures statefulSet ==
              if faults.apply then old(statefulSet) else
              match ApiApply(old(statefulSet), selectorLabels, templateLabels, fixed)
              case Applied(s) => Some(s)
              case Forbidden => if faults.delete then old(statefulSet) else None
              case Invalid => old(statefulSet)
      ensures r ==
              if faults.apply then ApiError else
              match ApiApply(old(statefulSet), selectorLabels, templateLabels, fixed)
              case Applied(s) =>
                if faults.policy then ApiError else if s.availableReplicas >= 1 then Ready else NotReadyYet
              case Forbidden => if faults.delete then ApiError else NotReadyYet
              case Invalid => ApiError
    {
      if faults.apply {
        return ApiError;
      }
      match ApiApply(statefulSet, selectorLabels, templateLabels, fixed)
      case Invalid => return ApiError;
      case Forbidden =>
        if faults.delete {
          return ApiError;
        }
        statefulSet := None;
        return NotReadyYet;
      case Applied(s) =>
        statefulSet := Some(s);
        if faults.policy {
          return ApiError;
        }
        return if s.IsReady() then Ready else NotReadyYet;
    }

    /** The label decision at the head of the reconcile, on the local copies of the labels. */
    static method ChooseLabels(existing: State, desiredLabels: Labels) returns (plan: Plan)
      ensures plan == PlanFor(existing, desiredLabels)
    {
      var labels := desiredLabels;
      var selectorLabels := labels;
      if existing.Some? {
        var existingPodLabels := existing.value.template;
        var existingSelector := existing.value.selector;
        var mergedLabels := labels + existingPodLabels;
        if Selects(labels, existingPodLabels) {
          selectorLabels := labels;
        } else if Selects(existingSelector, mergedLabels) {
          selectorLabels := existingSelector;
          labels := mergedLabels;
        } else if |labels| == |existingPodLabels| {
          return RefuseLabelChange;
        }
        if existingSelector != selectorLabels && !existing.value.IsReady() {
          return Wait;
        }
      }
      // the template is first given the selector's labels, then `labels` on top
      assert selectorLabels + labels == labels;
      return ApplyWith(selectorLabels, selectorLabels + labels);
    }

    /** The disruption budget is reconciled only once the set is ready. */
    method ReconcileStatefulset(labels: Labels, fixed: ImmutableSpec, faults: Faults) returns (r: Result)
      modifies this
      ensures var (next, action) := Step(old(statefulSet), labels, fixed);
              statefulSet == if faults.get || faults.apply || (action == DeletedSet && faults.delete)
                             then old(statefulSet) else next
      ensures r == Report(old(statefulSet), labels, fixed, faults)
      ensures r == Ready ==> statefulSet.Some? && statefulSet.value.availableReplicas >= 1
      ensures r == Ready ==> !faults.get && !faults.apply && !faults.policy && !faults.budget
    {
      if faults.get {
        return ApiError;
      }
      var plan := ChooseLabels(statefulSet, labels);
      match plan
      case Wait => return NotReadyYet;
      case RefuseLabelChange => return LabelChangeError;
      case ApplyWith(selector, template) =>
        r := ReconcileWorkload(selector, template, fixed, faults);
        if r == Ready && faults.budget {
          return ApiError;
        }
    }
  }

  /** What a reconcile answers. */
  function Report(s: State, labels: Labels, fixed: ImmutableSpec, faults: Faults): Result {
    if faults.get then ApiError
    else
      var (next, action) := Step(s, labels, fixed);
      match action
      case Waited => NotReadyYet
      case Refused => LabelChangeError
      case ApplyFailed => ApiError
      case DeletedSet => if faults.apply || faults.delete then ApiError else NotReadyYet
      case AppliedSet =>
        if faults.apply || faults.policy then ApiError
        else if !next.value.IsReady() then NotReadyYet
        else if faults.budget then ApiError
        else Ready
  }

  // ---------------------------------------------------------------- safety

  /** The API server never stores a set whose selector does not match its template. */
  ghost predicate Valid(s: State) {
    s.None? || Selects(s.value.selector, s.value.template)
  }

  /** What happens around the controller: reconciles, with labels that may change, and availability updates. */
  datatype Event =
    | Reconcile(labels: Labels, fixed: ImmutableSpec)
    | Observe(availableReplicas: int)

  function WithAvailability(s: State, availableReplicas: int): State {
    if s.Some? then Some(s.value.(availableReplicas := availableReplicas)) else None
  }

  function Next(s: State, e: Event): State {
    match e
    case Reconcile(labels, fixed) => Step(s, labels, fixed).0
    case Observe(n) => WithAvailability(s, n)
  }

  function After(s: State, events: seq<Event>): State
    decreases |events|
  {
    if events == [] then s else After(Next(s, events[0]), events[1..])
  }

  /** The label-change error cannot occur, and nothing the code applies is rejected as invalid. */
  lemma StepFromValid(s: State, labels: Labels, fixed: ImmutableSpec)
    requires Valid(s)
    ensures Valid(Step(s, labels, fixed).0)
    ensures Step(s, labels, fixed).1 != Refused && Step(s, labels, fixed).1 != ApplyFailed
    ensures PlanFor(s, labels).ApplyWith? ==> Selects(PlanFor(s, labels).selector, PlanFor(s, labels).template)
  {
    if s.Some? {
      var merged := labels + s.value.template;
      assert Selects(s.value.selector, merged);
    }
  }

  /** The existing template carries every label asked for. */
  predicate Carried(s: State, labels: Labels) {
    s.Some? && forall k :: k in labels ==> Lookup(s.value.template, k) == Some(labels[k])
  }

  lemma CarriedIsSelected(s: State, labels: Labels)
    ensures s.Some? ==> (Carried(s, labels) <==> Selects(labels, s.value.template))
  {
  }

  /** Which way a reconcile takes from a valid state. */
  lemma ActionExactly(s: State, labels: Labels, fixed: ImmutableSpec)
    requires Valid(s)
    ensures var action := Step(s, labels, fixed).1;
            && (action == Waited <==>
                  Carried(s, labels) && s.value.availableReplicas < 1 && s.value.selector != labels)
            && (action == DeletedSet <==>
                  && s.Some? && action != Waited
                  && (s.value.fixed != fixed || (Carried(s, labels) && s.value.selector != labels)))
            && (action == AppliedSet <==> action != Waited && action != DeletedSet)
  {
    CarriedIsSelected(s, labels);
    StepFromValid(s, labels, fixed);
    DeletedExactly(s, labels, fixed);
  }

  /** What it leaves; existing template labels win over desired ones until the template carries those. */
  lemma StepExactly(s: State, labels: Labels, fixed: ImmutableSpec)
    requires Valid(s)
    ensures var (next, action) := Step(s, labels, fixed);
            match action
            case Waited => next == s
            case DeletedSet => next == None
            case _ =>
              if s.None? then next == Some(StatefulSet(labels, labels, fixed, 0))
              else
                && next.Some? && next == Some(s.value.(template := next.value.template))
                && (Carried(s, labels) ==> next.value.template == labels)
                && (!Carried(s, labels) ==> forall k ::
                      Lookup(next.value.template, k) ==
                      Lookup(if k in s.value.template then s.value.template else labels, k))
  {
    CarriedIsSelected(s, labels);
    StepFromValid(s, labels, fixed);
    if s.Some? {
      assert Selects(s.value.selector, labels + s.value.template);
    }
  }

  /** When each answer is given. */
  lemma ReportExactly(s: State, labels: Labels, fixed: ImmutableSpec, faults: Faults)
    requires Valid(s)
    ensures var (next, action) := Step(s, labels, fixed);
            var r := Report(s, labels, fixed, faults);
            && (r == Ready <==>
                  && action == AppliedSet && next.value.availableReplicas >= 1
                  && !faults.get && !faults.apply && !faults.policy && !faults.budget)
            && (r == NotReadyYet <==>
                  && !faults.get
                  && match action
                     case Waited => true
                     case DeletedSet => !faults.apply && !faults.delete
                     case AppliedSet => !faults.apply && !faults.policy && next.value.availableReplicas < 1
                     case _ => false)
            && r != LabelChangeError
  {
    StepFromValid(s, labels, fixed);
  }

  /** Over every run, whatever labels are asked for, the stored set stays valid and no reconcile is refused. */
  lemma {:induction false} NeverRefusedOverRuns(s: State, events: seq<Event>, labels: Labels, fixed: ImmutableSpec)
    requires Valid(s)
    ensures Valid(After(s, events))
    ensures Step(After(s, events), labels, fixed).1 !in {Refused, ApplyFailed}
    decreases |events|
  {
    if events == [] {
      StepFromValid(s, labels, fixed);
    } else {
      if events[0].Reconcile? {
        StepFromValid(s, events[0].labels, events[0].fixed);
      }
      NeverRefusedOverRuns(Next(s, events[0]), events[1..], labels, fixed);
    }
  }

  /** When the set is deleted, exactly. */
  lemma DeletedExactly(s: State, labels: Labels, fixed: ImmutableSpec)
    requires Valid(s)
    ensures Step(s, labels, fixed).1 == DeletedSet <==>
            && s.Some?
            && (if Selects(labels, s.value.template) then
                  && (s.value.selector != labels || s.value.fixed != fixed)
                  && (s.value.selector == labels || s.value.IsReady())
                else
                  s.value.fixed != fixed)
  {
    StepFromValid(s, labels, fixed);
  }

  /**
   * A deletion for a label change alone finds a template that carries the new labels and one available pod; that says
   * nothing about the other pods, see `PodMigration`.
   */
  lemma LabelDeletionFollowsWidening(s: State, labels: Labels, fixed: ImmutableSpec)
    requires Valid(s) && Step(s, labels, fixed).1 == DeletedSet && s.value.fixed == fixed
    ensures s.value.IsReady() && Selects(labels, s.value.template)
    ensures Step(None, labels, fixed).0 == Some(StatefulSet(labels, labels, fixed, 0))
  {
    DeletedExactly(s, labels, fixed);
  }

  // ---------------------------------------------------------------- convergence

  predicate Settled(s: State, labels: Labels, fixed: ImmutableSpec) {
    s.Some? && s.value.selector == labels && s.value.template == labels && s.value.fixed == fixed
  }

  predicate AgreeOnSharedKeys(a: Labels, b: Labels) {
    forall k :: k in a && k in b ==> a[k] == b[k]
  }

  /** No label of the existing template contradicts the desired ones, or the set is to be replaced anyway. */
  predicate CanConverge(s: State, labels: Labels, fixed: ImmutableSpec) {
    s.None? || s.value.fixed != fixed || AgreeOnSharedKeys(labels, s.value.template)
  }

  /** Remaining steps, not counting the ones that wait. */
  function Rank(s: State, labels: Labels, fixed: ImmutableSpec): nat {
    if Settled(s, labels, fixed) then 0
    else if s.None? then 1
    else if Selects(labels, s.value.template) then
      if s.value.selector == labels && s.value.fixed == fixed then 1 else 2
    else if s.value.fixed != fixed then 2
    else 3
  }

  lemma RankBounded(s: State, labels: Labels, fixed: ImmutableSpec)
    ensures Rank(s, labels, fixed) <= 3
    ensures Rank(s, labels, fixed) == 0 <==> Settled(s, labels, fixed)
  {
  }

  /** Every step that does not wait brings the set exactly one step closer. */
  lemma StepDropsRank(s: State, labels: Labels, fixed: ImmutableSpec)
    requires Valid(s) && CanConverge(s, labels, fixed)
    ensures var (next, action) := Step(s, labels, fixed);
            && Valid(next) && CanConverge(next, labels, fixed)
            && (if action == Waited then next == s && !s.value.IsReady()
                else Rank(next, labels, fixed) == if Settled(s, labels, fixed) then 0 else Rank(s, labels, fixed) - 1)
  {
    StepFromValid(s, labels, fixed);
    if s.Some? && !Selects(labels, s.value.template) {
      var merged := labels + s.value.template;
      assert Selects(s.value.selector, merged);
      if s.value.fixed == fixed {
        assert Selects(labels, merged) && AgreeOnSharedKeys(labels, merged);
        assert s.value.selector != labels;
      }
    }
  }

  /** Reconciles in a row; before each one the environment sets the availability. */
  function Run(s: State, labels: Labels, fixed: ImmutableSpec, availability: seq<int>): State
    decreases |availability|
  {
    if availability == [] then s
    else Run(Step(WithAvailability(s, availability[0]), labels, fixed).0, labels, fixed, availability[1..])
  }

  function ReadyCount(availability: seq<int>): nat {
    if availability == [] then 0
    else (if availability[0] >= 1 then 1 else 0) + ReadyCount(availability[1..])
  }

  lemma {:induction false} RunLowersRank(s: State, labels: Labels, fixed: ImmutableSpec, availability: seq<int>)
    requires Valid(s) && CanConverge(s, labels, fixed)
    ensures var final := Run(s, labels, fixed, availability);
            && Valid(final)
            && Rank(final, labels, fixed) <= Max(0, Rank(s, labels, fixed) - ReadyCount(availability))
    decreases |availability|
  {
    if availability != [] {
      var seen := WithAvailability(s, availability[0]);
      assert Rank(seen, labels, fixed) == Rank(s, labels, fixed);
      StepDropsRank(seen, labels, fixed);
      RunLowersRank(Step(seen, labels, fixed).0, labels, fixed, availability[1..]);
    }
  }

  /** Three reconciles that find the set ready are enough, whatever happens in between. */
  lemma Converges(s: State, labels: Labels, fixed: ImmutableSpec, availability: seq<int>)
    requires Valid(s) && CanConverge(s, labels, fixed)
    requires ReadyCount(availability) >= 3
    ensures Settled(Run(s, labels, fixed, availability), labels, fixed)
  {
    RunLowersRank(s, labels, fixed, availability);
    RankBounded(s, labels, fixed);
    RankBounded(Run(s, labels, fixed, availability), labels, fixed);
  }

  /** A settled set stays settled over any run, and reports Ready whenever a pod is available. */
  lemma {:induction false} SettledReportsReady(
    s: State, labels: Labels, fixed: ImmutableSpec, availability: seq<int>, available: int)
    requires Settled(s, labels, fixed)
    ensures var end := WithAvailability(Run(s, labels, fixed, availability), available);
            && Settled(end, labels, fixed)
            && Step(end, labels, fixed) == (end, AppliedSet)
            && Report(end, labels, fixed, Faults(false, false, false, false, false)) ==
               if available >= 1 then Ready else NotReadyYet
    decreases |availability|
  {
    if availability != [] {
      var seen := WithAvailability(s, availability[0]);
      assert Step(seen, labels, fixed).0 == seen;
      SettledReportsReady(seen, labels, fixed, availability[1..], available);
    }
  }

  /** So three reconciles that find the set ready lead to Ready. */
  lemma ConvergedReportsReady(
    s: State, labels: Labels, fixed: ImmutableSpec, availability: seq<int>, available: int)
    requires Valid(s) && CanConverge(s, labels, fixed)
    requires ReadyCount(availability) >= 3 && available >= 1
    ensures Report(WithAvailability(Run(s, labels, fixed, availability), available), labels, fixed,
                   Faults(false, false, false, false, false)) == Ready
  {
    Converges(s, labels, fixed, availability);
    SettledReportsReady(Run(s, labels, fixed, availability), labels, fixed, [], available);
  }

  /** Otherwise the existing label wins: the run stays at the merged template and the old selector. */
  lemma {:induction false} Blocked(s: State, labels: Labels, fixed: ImmutableSpec, availability: seq<int>)
    requires Valid(s) && !CanConverge(s, labels, fixed)
    ensures var final := Run(s, labels, fixed, availability);
            && final.Some? && final.value.selector == s.value.selector
            && final.value.template == (if availability == [] then s.value.template else labels + s.value.template)
            && !Settled(final, labels, fixed)
    decreases |availability|
  {
    var k :| k in labels && k in s.value.template && labels[k] != s.value.template[k];
    if availability != [] {
      var seen := WithAvailability(s, availability[0]);
      var merged := labels + s.value.template;
      assert Selects(s.value.selector, merged);
      var next := Step(seen, labels, fixed).0;
      assert next == Some(seen.value.(template := merged));
      assert k in merged && merged[k] != labels[k];
      assert labels + merged == merged;
      Blocked(next, labels, fixed, availability[1..]);
    }
  }

  predicate Settles(s: State, labels: Labels, fixed: ImmutableSpec, availability: seq<int>) {
    Settled(Run(s, labels, fixed, availability), labels, fixed)
  }

  lemma ConvergesExactly(s: State, labels: Labels, fixed: ImmutableSpec)
    requires Valid(s)
    ensures (exists availability :: Settles(s, labels, fixed, availability))
            <==> CanConverge(s, labels, fixed)
  {
    if CanConverge(s, labels, fixed) {
      var availability: seq<int> := [1, 1, 1];
      assert ReadyCount(availability[2..]) == 1;
      assert ReadyCount(availability[1..]) == 2;
      Converges(s, labels, fixed, availability);
      assert Settles(s, labels, fixed, availability);
    } else {
      forall availability: seq<int>
        ensures !Settles(s, labels, fixed, availability)
      {
        Blocked(s, labels, fixed, availability);
      }
    }
  }
}

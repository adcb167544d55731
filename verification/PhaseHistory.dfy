/** Histories of passes: what the stored conditions and the latched fields mean after any of them. */
module PhaseHistory {
  import opened Common
  import opened Phases

  /** The deferred patch: recompute the summary, then store. */
  function AfterPatch(s: Status): Status {
    s.(conditions := Summarize(s.conditions))
  }

  /**
   * A pass over the phases or of a deletion, whose patch may fail; a change of the Paused condition, which another
   * call stores; or a reconcile that returns before it does anything.
   */
  datatype Event =
    | Pass(inputs: PassInputs, patched: bool)
    | Deletion(patched: bool)
    | PausedSet(condition: Condition)
    | Skipped

  function Next(s: Status, e: Event): Status {
    match e
    case Pass(inputs, patched) => if patched then AfterPatch(AfterNormal(s, inputs)) else s
    case Deletion(patched) => if patched then AfterPatch(s) else s
    case PausedSet(c) => s.(conditions := s.conditions[PAUSED := c])
    case Skipped => s
  }

  function After(s: Status, events: seq<Event>): Status
    decreases |events|
  {
    if events == [] then s else After(Next(s, events[0]), events[1..])
  }

  /** The object in the API server, and the controller's reconcile of it. */
  class Store {
    var stored: Status

    constructor (s: Status)
      ensures stored == s
    {
      stored := s;
    }

    method Reconcile(deleting: bool, inputs: PassInputs, patched: bool)
      modifies this
      ensures stored == Next(old(stored), if deleting then Deletion(patched) else Pass(inputs, patched))
      ensures !patched ==> stored == old(stored)
      ensures patched && deleting ==> stored == old(stored).(conditions := Summarize(old(stored).conditions))
    {
      var hostedControlPlane := new HostedControlPlane(stored);
      if !deleting {
        var _ := hostedControlPlane.ReconcileNormal(inputs);
      }
      // deferred
      hostedControlPlane.conditions := Summarize(hostedControlPlane.conditions);
      if patched {
        stored := hostedControlPlane.View();
      }
    }
  }

  // ---------------------------------------------------------------- condition history

  function IndexOf(phases: seq<Phase>, type_: string): (i: nat)
    ensures i <= |phases|
    ensures i < |phases| ==> phases[i].condition == type_
    ensures forall j :: 0 <= j < i ==> phases[j].condition != type_
  {
    if phases == [] || phases[0].condition == type_ then 0 else 1 + IndexOf(phases[1..], type_)
  }

  /** What one event says about a condition: the outcome of its phase, if the phase ran and the pass was stored. */
  function Says(e: Event, type_: string): Option<Condition> {
    if !e.Pass? || !e.patched then None
    else if !e.inputs.networkParses then
      if type_ == PHASES[WORKLOAD].condition then Some(ConditionFor(PHASES[WORKLOAD], Failed(""))) else None
    else if !e.inputs.discovery then None
    else
      var outcomes := AllOutcomes(e.inputs);
      var i := IndexOf(PHASES, type_);
      var j := IndexOf(WORKLOAD_PHASES, type_);
      if i < |PHASES| && Reaches(outcomes, i) then Some(ConditionFor(PHASES[i], outcomes[i]))
      else if j < |WORKLOAD_PHASES| && RunsWorkloadPhases(e.inputs) && Reaches(e.inputs.workloadOutcomes, j) then
        Some(ConditionFor(WORKLOAD_PHASES[j], e.inputs.workloadOutcomes[j]))
      else None
  }

  /** The last thing said in a history. */
  function LastSaid(events: seq<Event>, type_: string): Option<Condition> {
    if events == [] then None
    else
      var last := Says(events[|events| - 1], type_);
      if last.Some? then last else LastSaid(events[..|events| - 1], type_)
  }

  function Recorded(conditions: Conditions, type_: string): Option<Condition> {
    if type_ in conditions then Some(conditions[type_]) else None
  }

  lemma SummaryTouchesOnlyReady(conditions: Conditions)
    ensures forall t :: t != READY ==> SameAt(Summarize(conditions), conditions, t)
  {
  }

  lemma PipelineSays(phases: seq<Phase>, outcomes: seq<Outcome>, conditions: Conditions, type_: string)
    requires |phases| == |outcomes| && DistinctConditions(phases)
    ensures var i := IndexOf(phases, type_);
            Recorded(Pipeline(phases, outcomes, conditions), type_) ==
            if i < |phases| && Reaches(outcomes, i) then Some(ConditionFor(phases[i], outcomes[i]))
            else Recorded(conditions, type_)
  {
    PipelineSetsReached(phases, outcomes, conditions);
    var i := IndexOf(phases, type_);
    if !(i < |phases| && Reaches(outcomes, i)) {
      forall j | 0 <= j < |phases| && Reaches(outcomes, j)
        ensures phases[j].condition != type_
      {
      }
      assert SameAt(Pipeline(phases, outcomes, conditions), conditions, type_);
    }
  }

  lemma NormalPassSays(s: Status, e: Event, type_: string)
    requires e.Pass? && e.patched && type_ != READY
    ensures Recorded(AfterNormal(s, e.inputs).conditions, type_) ==
            if Says(e, type_).Some? then Says(e, type_) else Recorded(s.conditions, type_)
  {
    ConditionNamesDiffer();
    if RunsPhases(e.inputs) {
      var inner := WithWorkloadConditions(e.inputs, s.conditions);
      PipelineSays(PHASES, AllOutcomes(e.inputs), inner, type_);
      PipelineSays(WORKLOAD_PHASES, e.inputs.workloadOutcomes, s.conditions, type_);
    }
  }

  lemma SummaryKeeps(conditions: Conditions, type_: string)
    requires type_ != READY
    ensures Recorded(Summarize(conditions), type_) == Recorded(conditions, type_)
  {
    SummaryTouchesOnlyReady(conditions);
    assert SameAt(Summarize(conditions), conditions, type_);
  }

  lemma EventSays(s: Status, e: Event, type_: string)
    requires type_ !in {READY, PAUSED}
    ensures Recorded(Next(s, e).conditions, type_) ==
            if Says(e, type_).Some? then Says(e, type_) else Recorded(s.conditions, type_)
  {
    if e.Pass? && e.patched {
      NormalPassSays(s, e, type_);
      SummaryKeeps(AfterNormal(s, e.inputs).conditions, type_);
    } else if e.Deletion? {
      SummaryKeeps(s.conditions, type_);
    }
  }

  lemma {:induction false} AfterLast(s: Status, events: seq<Event>)
    requires events != []
    ensures After(s, events) == Next(After(s, events[..|events| - 1]), events[|events| - 1])
    decreases |events|
  {
    if |events| > 1 {
      AfterLast(Next(s, events[0]), events[1..]);
      assert events[1..][..|events| - 2] == events[..|events| - 1][1..];
    }
  }

  /** After any history every condition but Ready and Paused is what was said about it last. */
  lemma {:induction false} ConditionHistory(s: Status, events: seq<Event>, type_: string)
    requires type_ !in {READY, PAUSED}
    ensures Recorded(After(s, events).conditions, type_) ==
            if LastSaid(events, type_).Some? then LastSaid(events, type_) else Recorded(s.conditions, type_)
    decreases |events|
  {
    if events != [] {
      var before := events[..|events| - 1];
      AfterLast(s, events);
      ConditionHistory(s, before, type_);
      EventSays(After(s, before), events[|events| - 1], type_);
    }
  }

  predicate RanPhase(e: Event, i: nat) {
    e.Pass? && e.patched && RunsPhases(e.inputs) && Reaches(AllOutcomes(e.inputs), i)
  }

  /**
   * What an event makes of phase i: its outcome if a stored pass ran it. A network configuration that does not parse
   * counts as a failure of the workload phase.
   */
  function PhaseOutcome(e: Event, i: nat): Option<Outcome> {
    if RanPhase(e, i) then Some(AllOutcomes(e.inputs)[i])
    else if i == WORKLOAD && e.Pass? && e.patched && !e.inputs.networkParses then Some(Failed(""))
    else None
  }

  lemma SaysOfPhase(e: Event, i: nat)
    requires i < |PHASES|
    ensures Says(e, PHASES[i].condition) ==
            match PhaseOutcome(e, i)
            case None => None
            case Some(o) => Some(ConditionFor(PHASES[i], o))
  {
    ConditionNamesDiffer();
  }

  /** The condition of every phase shows its outcome in the last stored pass that had one for it. */
  lemma {:induction false} PhaseShowsLastOutcome(s: Status, events: seq<Event>, i: nat, k: nat)
    requires i < |PHASES| && k < |events| && PhaseOutcome(events[k], i).Some?
    requires forall l :: k < l < |events| ==> PhaseOutcome(events[l], i).None?
    ensures Recorded(After(s, events).conditions, PHASES[i].condition) ==
            Some(ConditionFor(PHASES[i], PhaseOutcome(events[k], i).value))
    decreases |events|
  {
    ConditionNamesDiffer();
    var type_ := PHASES[i].condition;
    var before := events[..|events| - 1];
    AfterLast(s, events);
    SaysOfPhase(events[|events| - 1], i);
    EventSays(After(s, before), events[|events| - 1], type_);
    if k < |events| - 1 {
      PhaseShowsLastOutcome(s, before, i, k);
    }
  }

  // ---------------------------------------------------------------- latches

  ghost predicate LatchInvariant(s: Status) {
    s.ready ==> s.initialized
  }

  /** No event resets a latch; Ready is first set by a stored pass in which every phase up to it passed. */
  lemma LatchStep(s: Status, e: Event)
    ensures LatchInvariant(s) ==> LatchInvariant(Next(s, e))
    ensures (s.ready ==> Next(s, e).ready) && (s.initialized ==> Next(s, e).initialized)
    ensures !s.ready && Next(s, e).ready <==>
            && !s.ready && e.Pass? && e.patched && RunsPhases(e.inputs)
            && forall i :: 0 <= i <= ADMIN_KUBECONFIG ==> Passes(AllOutcomes(e.inputs)[i])
    ensures !s.initialized && Next(s, e).initialized <==>
            && !s.initialized && e.Pass? && e.patched && RunsPhases(e.inputs)
            && forall i :: 0 <= i <= DEPLOYMENTS ==> Passes(AllOutcomes(e.inputs)[i])
  {
    if e.Pass? {
      var n := FirstFailure(AllOutcomes(e.inputs));
      assert n <= ADMIN_KUBECONFIG ==> !Passes(AllOutcomes(e.inputs)[n]);
    }
  }

  lemma {:induction false} LatchesHold(s: Status, events: seq<Event>)
    requires LatchInvariant(s)
    ensures var t := After(s, events);
            LatchInvariant(t) && (s.ready ==> t.ready) && (s.initialized ==> t.initialized)
    decreases |events|
  {
    if events != [] {
      LatchStep(s, events[0]);
      LatchesHold(Next(s, events[0]), events[1..]);
    }
  }

  /** An object that is ready after a history became so in one of its passes, where all of those phases passed. */
  lemma {:induction false} ReadyHasAReason(s: Status, events: seq<Event>) returns (k: nat)
    requires !s.ready && After(s, events).ready
    ensures k < |events| && events[k].Pass? && events[k].patched && RunsPhases(events[k].inputs)
    ensures forall i :: 0 <= i <= ADMIN_KUBECONFIG ==> Passes(AllOutcomes(events[k].inputs)[i])
    decreases |events|
  {
    var next := Next(s, events[0]);
    LatchStep(s, events[0]);
    if next.ready {
      k := 0;
    } else {
      var rest := ReadyHasAReason(next, events[1..]);
      k := rest + 1;
    }
  }

  // ---------------------------------------------------------------- the Ready condition

  ghost predicate SomeApplicable(conditions: Conditions) {
    exists t :: t in conditions && Applicable(t)
  }

  /** Ready is True iff every other condition that counts is. */
  ghost predicate SummaryHolds(conditions: Conditions) {
    SomeApplicable(conditions) ==>
      && READY in conditions
      && (conditions[READY].status == ConditionTrue
          <==> forall t :: t in conditions && Applicable(t) ==> conditions[t].status == ConditionTrue)
  }

  lemma SummarizeEstablishes(conditions: Conditions)
    ensures SummaryHolds(Summarize(conditions))
  {
    var c := Summarize(conditions);
    assert forall t :: t != READY ==> (t in c <==> t in conditions) && (t in c ==> c[t] == conditions[t]);
    assert !Applicable(READY);
  }

  /** The summary's status: False before Unknown before True; without conditions that count, nothing changes. */
  lemma SummaryExactly(conditions: Conditions)
    ensures var c := Summarize(conditions);
            if !SomeApplicable(conditions) then c == conditions
            else
              && READY in c
              && (c[READY].status == ConditionFalse <==>
                    exists t :: t in conditions && Applicable(t) && conditions[t].status == ConditionFalse)
              && (c[READY].status == ConditionTrue <==>
                    forall t :: t in conditions && Applicable(t) ==> conditions[t].status == ConditionTrue)
  {
    if SomeApplicable(conditions) {
      var t :| t in conditions && Applicable(t);
    }
  }

  lemma {:induction false} ReadySummarizes(s: Status, events: seq<Event>)
    requires SummaryHolds(s.conditions)
    ensures SummaryHolds(After(s, events).conditions)
    decreases |events|
  {
    if events != [] {
      match events[0]
      case Pass(inputs, patched) => SummarizeEstablishes(AfterNormal(s, inputs).conditions);
        ReadySummarizes(Next(s, events[0]), events[1..]);
      case Deletion(_) => SummarizeEstablishes(s.conditions);
        ReadySummarizes(Next(s, events[0]), events[1..]);
      case PausedSet(c) =>
        var after := s.conditions[PAUSED := c];
        assert forall t :: Applicable(t) ==> SameAt(after, s.conditions, t);
        ReadySummarizes(Next(s, events[0]), events[1..]);
      case Skipped => ReadySummarizes(Next(s, events[0]), events[1..]);
    }
  }

  /** Only phases of this controller have left conditions that count. */
  ghost predicate OwnConditionsOnly(conditions: Conditions) {
    forall t :: t in conditions && Applicable(t) ==> exists i :: 0 <= i < WORKLOAD && PHASES[i].condition == t
  }

  /**
   * After a stored pass that ran the phases, Ready is True exactly when every phase before the workload resources
   * passed in that very pass; the workload phase does not count.
   */
  lemma ReadyMeansThisPass(s: Status, inputs: PassInputs)
    requires RunsPhases(inputs) && OwnConditionsOnly(s.conditions)
    ensures var c := Next(s, Pass(inputs, true)).conditions;
            && READY in c
            && (c[READY].status == ConditionTrue <==> forall i :: 0 <= i < WORKLOAD ==> Passes(inputs.outcomes[i]))
  {
    ConditionNamesDiffer();
    var all := AllOutcomes(inputs);
    var inner := WithWorkloadConditions(inputs, s.conditions);
    var c := Pipeline(PHASES, all, inner);
    var n := FirstFailure(all);
    SummarizeEstablishes(c);
    PipelineShape(PHASES, all, inner);
    var summary := Summarize(c);
    SummaryTouchesOnlyReady(c);
    ApplicablePhases(0);
    assert PHASES[0].condition in c by {
      PipelineSetsReached(PHASES, all, inner);
    }
    if n < WORKLOAD {
      ApplicablePhases(n);
      assert !Passes(inputs.outcomes[n]);
      assert summary[PHASES[n].condition].status == ConditionFalse;
    } else {
      forall i | 0 <= i < WORKLOAD
        ensures Passes(inputs.outcomes[i])
      {
        assert all[i] == inputs.outcomes[i];
      }
      forall t | t in summary && Applicable(t)
        ensures summary[t].status == ConditionTrue
      {
        StillOwn(s, inputs, t);
      }
    }
  }

  lemma StillOwn(s: Status, inputs: PassInputs, type_: string)
    requires RunsPhases(inputs) && OwnConditionsOnly(s.conditions)
    requires type_ in AfterNormal(s, inputs).conditions && Applicable(type_)
    ensures exists i :: 0 <= i < WORKLOAD && PHASES[i].condition == type_
  {
    var e := Pass(inputs, true);
    NormalPassSays(s, e, type_);
    if Says(e, type_).Some? {
      var i, j := IndexOf(PHASES, type_), IndexOf(WORKLOAD_PHASES, type_);
      if i < |PHASES| {
        ApplicablePhases(i);
      } else if j < |WORKLOAD_PHASES| {
        WorkloadPhasesAreNotApplicable(j);
      }
    }
  }
}

/**
 * The RBAC objects of the workload cluster: applied phase by phase; a binding whose role reference would have to change
 * is deleted and recreated by the next reconcile.
 */
module RBAC {
  import opened Common

  datatype Kind = ClusterRole | ClusterRoleBinding | Role | RoleBinding
  datatype Key = Key(kind: Kind, namespace: string, name: string)

  /** What is immutable of an object, and the rest. Roles have no role reference. */
  datatype Object = Object(roleRef: Option<string>, content: string)
  datatype Resource = Resource(key: Key, desired: Object)
  type Objects = map<Key, Object>

  datatype Phase = Phase(
    name: string,
    clusterRoles: seq<Resource>,
    clusterRoleBindings: seq<Resource>,
    roles: seq<Resource>,
    roleBindings: seq<Resource>)

  function Resources(phase: Phase): seq<Resource> {
    phase.clusterRoles + phase.clusterRoleBindings + phase.roles + phase.roleBindings
  }

  function AllResources(phases: seq<Phase>): seq<Resource> {
    if phases == [] then [] else Resources(phases[0]) + AllResources(phases[1..])
  }

  /** What goes wrong, apart from validation, with the calls for a resource. */
  datatype Call = Works | ApplyFails | DeleteFails

  /** The trouble a pass meets: phases that cannot be generated, resources whose apply or delete call fails. */
  datatype Faults = Faults(generate: set<string>, apply: set<Key>, delete: set<Key>) {
    function CallFor(key: Key): Call {
      if key in apply then ApplyFails else if key in delete then DeleteFails else Works
    }
  }

  const NO_FAULTS := Faults({}, {}, {})

  /** The API server refuses an apply as invalid when it would change the role reference. */
  predicate Conflicts(objects: Objects, r: Resource) {
    r.key in objects && objects[r.key].roleRef != r.desired.roleRef
  }

  predicate Desired(objects: Objects, r: Resource) {
    r.key in objects && objects[r.key] == r.desired
  }

  predicate Fails(objects: Objects, r: Resource, call: Call) {
    call == ApplyFails || (call == DeleteFails && Conflicts(objects, r))
  }

  function AfterResource(objects: Objects, r: Resource): Objects {
    if Conflicts(objects, r) then objects - {r.key} else objects[r.key := r.desired]
  }

  function Reason(key: Key): (reason: string)
    ensures reason != ""
  {
    match key.kind
    case ClusterRole => "cluster role " + key.name + " needs to be recreated"
    case ClusterRoleBinding => "cluster role binding " + key.name + " needs to be recreated"
    case Role => "role " + key.name + " in namespace " + key.namespace + " needs to be recreated"
    case RoleBinding => "role binding " + key.name + " in namespace " + key.namespace + " needs to be recreated"
  }

  datatype Applied = Applied(objects: Objects, failed: bool, reasons: seq<string>)

  /** Applying resources in order until a call fails. */
  function ApplyResources(objects: Objects, rs: seq<Resource>, faults: Faults, reasons: seq<string>): Applied
    decreases |rs|
  {
    if rs == [] then Applied(objects, false, reasons)
    else if Fails(objects, rs[0], faults.CallFor(rs[0].key)) then Applied(objects, true, reasons)
    else
      ApplyResources(AfterResource(objects, rs[0]), rs[1..], faults,
                     if Conflicts(objects, rs[0]) then reasons + [Reason(rs[0].key)] else reasons)
  }

  datatype Pass = Pass(objects: Objects, outcome: Outcome)

  function ReconcilePhases(objects: Objects, phases: seq<Phase>, faults: Faults): Pass
    decreases |phases|
  {
    if phases == [] then Pass(objects, Done)
    else if phases[0].name in faults.generate then Pass(objects, Failed("generate"))
    else
      var applied := ApplyResources(objects, Resources(phases[0]), faults, []);
      if applied.failed then Pass(applied.objects, Failed("apply"))
      else if applied.reasons != [] then Pass(applied.objects, NotReady(Join(applied.reasons)))
      else ReconcilePhases(applied.objects, phases[1..], faults)
  }

  lemma {:induction false} ApplyInParts(
    objects: Objects, a: seq<Resource>, b: seq<Resource>, faults: Faults, reasons: seq<string>)
    ensures ApplyResources(objects, a + b, faults, reasons) ==
            var first := ApplyResources(objects, a, faults, reasons);
            if first.failed then first else ApplyResources(first.objects, b, faults, first.reasons)
    decreases |a|
  {
    if a == [] {
      assert a + b == b;
    } else {
      assert (a + b)[0] == a[0] && (a + b)[1..] == a[1..] + b;
      if !Fails(objects, a[0], faults.CallFor(a[0].key)) {
        ApplyInParts(AfterResource(objects, a[0]), a[1..], b, faults,
                     if Conflicts(objects, a[0]) then reasons + [Reason(a[0].key)] else reasons);
      }
    }
  }

  datatype ApplyResult = Accepted | Invalid | OtherError

  class WorkloadCluster {
    var objects: Objects

    constructor (o: Objects)
      ensures objects == o
    {
      objects := o;
    }

    method Apply(r: Resource, call: Call) returns (result: ApplyResult)
      modifies this
      ensures result == if call == ApplyFails then OtherError
                        else if r.key in old(objects) && old(objects)[r.key].roleRef != r.desired.roleRef then Invalid
                        else Accepted
      ensures objects == if result == Accepted then old(objects)[r.key := r.desired] else old(objects)
    {
      if call == ApplyFails {
        return OtherError;
      }
      if r.key in objects && objects[r.key].roleRef != r.desired.roleRef {
        return Invalid;
      }
      objects := objects[r.key := r.desired];
      return Accepted;
    }

    /** Applies one kind's resources; an invalid one is deleted, to be recreated later. */
    method ApplyEach(rs: seq<Resource>, faults: Faults, before: seq<string>)
      returns (failed: bool, reasons: seq<string>)
      modifies this
      ensures Applied(objects, failed, reasons) == ApplyResources(old(objects), rs, faults, before)
    {
      reasons := before;
      for i := 0 to |rs|
        invariant ApplyResources(objects, rs[i..], faults, reasons) == ApplyResources(old(objects), rs, faults, before)
      {
        var r := rs[i];
        assert rs[i..][1..] == rs[i + 1..];
        var result := Apply(r, faults.CallFor(r.key));
        if result == OtherError {
          return true, reasons;
        }
        if result == Invalid {
          if faults.CallFor(r.key) == DeleteFails {
            return true, reasons;
          }
          objects := objects - {r.key};
          reasons := reasons + [Reason(r.key)];
        }
      }
      return false, reasons;
    }

    method ReconcilePhase(phase: Phase, faults: Faults) returns (failed: bool, reasons: seq<string>)
      modifies this
      ensures Applied(objects, failed, reasons) == ApplyResources(old(objects), Resources(phase), faults, [])
    {
      ghost var rest := phase.roles + phase.roleBindings;
      assert Resources(phase) == phase.clusterRoles + (phase.clusterRoleBindings + rest);
      ApplyInParts(objects, phase.clusterRoles, phase.clusterRoleBindings + rest, faults, []);
      failed, reasons := ApplyEach(phase.clusterRoles, faults, []);
      if failed {
        return;
      }
      ApplyInParts(objects, phase.clusterRoleBindings, rest, faults, reasons);
      failed, reasons := ApplyEach(phase.clusterRoleBindings, faults, reasons);
      if failed {
        return;
      }
      ApplyInParts(objects, phase.roles, phase.roleBindings, faults, reasons);
      failed, reasons := ApplyEach(phase.roles, faults, reasons);
      if failed {
        return;
      }
      failed, reasons := ApplyEach(phase.roleBindings, faults, reasons);
    }

    method ReconcileRBAC(phases: seq<Phase>, faults: Faults) returns (o: Outcome)
      modifies this
      ensures Pass(objects, o) == ReconcilePhases(old(objects), phases, faults)
    {
      for i := 0 to |phases|
        invariant ReconcilePhases(objects, phases[i..], faults) == ReconcilePhases(old(objects), phases, faults)
      {
        assert phases[i..][1..] == phases[i + 1..];
        if phases[i].name in faults.generate {
          return Failed("generate");
        }
        var failed, reasons := ReconcilePhase(phases[i], faults);
        if failed {
          return Failed("apply");
        }
        if |reasons| > 0 {
          return NotReady(Join(reasons));
        }
      }
      return Done;
    }
  }

  // ---------------------------------------------------------------- one phase

  ghost predicate DistinctKeys(rs: seq<Resource>) {
    forall i, j :: 0 <= i < j < |rs| ==> rs[i].key != rs[j].key
  }

  ghost predicate Names(rs: seq<Resource>, key: Key) {
    exists r :: r in rs && r.key == key
  }

  ghost predicate SameAt(o: Objects, p: Objects, key: Key) {
    (key in o <==> key in p) && (key in o ==> o[key] == p[key])
  }

  ghost predicate NoConflict(objects: Objects, rs: seq<Resource>) {
    forall r :: r in rs ==> !Conflicts(objects, r)
  }

  ghost predicate AllDesired(objects: Objects, rs: seq<Resource>) {
    forall r :: r in rs ==> Desired(objects, r)
  }

  lemma {:induction false} ApplyLeavesOthers(
    objects: Objects, rs: seq<Resource>, faults: Faults, reasons: seq<string>, key: Key)
    requires !Names(rs, key)
    ensures SameAt(ApplyResources(objects, rs, faults, reasons).objects, objects, key)
    decreases |rs|
  {
    if rs != [] && !Fails(objects, rs[0], faults.CallFor(rs[0].key)) {
      assert rs[0] in rs && forall r :: r in rs[1..] ==> r in rs;
      ApplyLeavesOthers(AfterResource(objects, rs[0]), rs[1..], faults,
                        if Conflicts(objects, rs[0]) then reasons + [Reason(rs[0].key)] else reasons, key);
    }
  }

  /** What applying does to one of the resources: never a new conflict, and an object that is right stays so. */
  lemma {:induction false} ApplyAt(objects: Objects, rs: seq<Resource>, faults: Faults, reasons: seq<string>, i: nat)
    requires DistinctKeys(rs) && i < |rs|
    ensures var a := ApplyResources(objects, rs, faults, reasons);
            && (Conflicts(a.objects, rs[i]) ==> Conflicts(objects, rs[i]))
            && (Desired(objects, rs[i]) ==> Desired(a.objects, rs[i]))
            && (!a.failed && Conflicts(objects, rs[i]) ==> rs[i].key !in a.objects)
            && (!a.failed && !Conflicts(objects, rs[i]) ==> Desired(a.objects, rs[i]))
    decreases |rs|
  {
    if !Fails(objects, rs[0], faults.CallFor(rs[0].key)) {
      var t := AfterResource(objects, rs[0]);
      var more := if Conflicts(objects, rs[0]) then reasons + [Reason(rs[0].key)] else reasons;
      if i == 0 {
        ApplyLeavesOthers(t, rs[1..], faults, more, rs[0].key);
      } else {
        ApplyAt(t, rs[1..], faults, more, i - 1);
      }
    }
  }

  lemma {:induction false} ReasonsExactly(objects: Objects, rs: seq<Resource>, faults: Faults, reasons: seq<string>)
    requires DistinctKeys(rs)
    ensures var a := ApplyResources(objects, rs, faults, reasons);
            && (!a.failed ==> (a.reasons == [] <==> reasons == [] && NoConflict(objects, rs)))
            && (faults == NO_FAULTS ==> !a.failed)
    decreases |rs|
  {
    if rs != [] && !Fails(objects, rs[0], faults.CallFor(rs[0].key)) {
      var t := AfterResource(objects, rs[0]);
      ReasonsExactly(t, rs[1..], faults, if Conflicts(objects, rs[0]) then reasons + [Reason(rs[0].key)] else reasons);
      forall r | r in rs[1..]
        ensures Conflicts(t, r) <==> Conflicts(objects, r)
      {
        assert r.key != rs[0].key;
      }
      assert forall r :: r in rs <==> r == rs[0] || r in rs[1..];
    }
  }

  /** The role reference would have to change. */
  predicate OtherRoleRef(objects: Objects, r: Resource) {
    r.key in objects && objects[r.key].roleRef != r.desired.roleRef
  }

  /** Applying fails exactly if some apply call fails, or some delete call for an object with another role reference. */
  lemma {:induction false} ApplyFailsExactly(objects: Objects, rs: seq<Resource>, faults: Faults, reasons: seq<string>)
    requires DistinctKeys(rs)
    ensures ApplyResources(objects, rs, faults, reasons).failed <==>
            exists r :: r in rs &&
              (r.key in faults.apply || (r.key in faults.delete && OtherRoleRef(objects, r)))
    decreases |rs|
  {
    if rs != [] {
      assert rs == [rs[0]] + rs[1..];
      if !Fails(objects, rs[0], faults.CallFor(rs[0].key)) {
        var t := AfterResource(objects, rs[0]);
        ApplyFailsExactly(t, rs[1..], faults,
                          if Conflicts(objects, rs[0]) then reasons + [Reason(rs[0].key)] else reasons);
        forall r | r in rs[1..]
          ensures OtherRoleRef(t, r) <==> OtherRoleRef(objects, r)
        {
          assert r.key != rs[0].key;
        }
      }
    }
  }

  /** Without a failing call: every object is as desired afterwards, or deleted if it had another role reference. */
  lemma AppliedExactly(objects: Objects, rs: seq<Resource>, faults: Faults, reasons: seq<string>, i: nat)
    requires DistinctKeys(rs) && i < |rs| && !ApplyResources(objects, rs, faults, reasons).failed
    ensures var t := ApplyResources(objects, rs, faults, reasons).objects;
            if OtherRoleRef(objects, rs[i]) then rs[i].key !in t
            else rs[i].key in t && t[rs[i].key] == rs[i].desired
  {
    ApplyAt(objects, rs, faults, reasons, i);
  }

  /** A reason for every object with another role reference, in order. */
  function RecreateReasons(objects: Objects, rs: seq<Resource>): seq<string> {
    if rs == [] then []
    else (if OtherRoleRef(objects, rs[0]) then [Reason(rs[0].key)] else []) + RecreateReasons(objects, rs[1..])
  }

  lemma {:induction false} SameReasons(o: Objects, p: Objects, rs: seq<Resource>)
    requires forall r :: r in rs ==> SameAt(o, p, r.key)
    ensures RecreateReasons(o, rs) == RecreateReasons(p, rs)
  {
    if rs != [] {
      assert rs[0] in rs && forall r :: r in rs[1..] ==> r in rs;
      SameReasons(o, p, rs[1..]);
    }
  }

  /** Without a failing call exactly those reasons are added. */
  lemma {:induction false} ReasonsInOrder(objects: Objects, rs: seq<Resource>, faults: Faults, reasons: seq<string>)
    requires DistinctKeys(rs) && !ApplyResources(objects, rs, faults, reasons).failed
    ensures ApplyResources(objects, rs, faults, reasons).reasons == reasons + RecreateReasons(objects, rs)
    decreases |rs|
  {
    if rs == [] {
      assert reasons + [] == reasons;
    } else {
      var t := AfterResource(objects, rs[0]);
      var more := if Conflicts(objects, rs[0]) then reasons + [Reason(rs[0].key)] else reasons;
      forall r | r in rs[1..]
        ensures SameAt(t, objects, r.key)
      {
        assert r.key != rs[0].key;
      }
      SameReasons(t, objects, rs[1..]);
      ReasonsInOrder(t, rs[1..], faults, more);
      AppendOptional(reasons, Conflicts(objects, rs[0]), Reason(rs[0].key), RecreateReasons(objects, rs[1..]));
    }
  }

  // ---------------------------------------------------------------- one pass

  lemma PartsApart(a: seq<Resource>, b: seq<Resource>)
    requires DistinctKeys(a + b)
    ensures DistinctKeys(a) && DistinctKeys(b)
    ensures forall r, q :: r in a && q in b ==> r.key != q.key
  {
    var all := a + b;
    forall i, j | 0 <= i < j < |a|
      ensures a[i].key != a[j].key
    {
      assert all[i].key != all[j].key;
    }
    forall i, j | 0 <= i < j < |b|
      ensures b[i].key != b[j].key
    {
      assert all[|a| + i].key != all[|a| + j].key;
    }
    forall r, q | r in a && q in b
      ensures r.key != q.key
    {
      var i :| 0 <= i < |a| && a[i] == r;
      var j :| 0 <= j < |b| && b[j] == q;
      assert all[i].key != all[|a| + j].key;
    }
  }

  lemma PhasesApart(phases: seq<Phase>)
    requires phases != [] && DistinctKeys(AllResources(phases))
    ensures DistinctKeys(Resources(phases[0])) && DistinctKeys(AllResources(phases[1..]))
    ensures forall r, q :: r in Resources(phases[0]) && q in AllResources(phases[1..]) ==> r.key != q.key
  {
    PartsApart(Resources(phases[0]), AllResources(phases[1..]));
  }

  lemma {:induction false} PassLeavesOthers(objects: Objects, phases: seq<Phase>, faults: Faults, key: Key)
    requires !Names(AllResources(phases), key)
    ensures SameAt(ReconcilePhases(objects, phases, faults).objects, objects, key)
    decreases |phases|
  {
    if phases != [] {
      var rs := Resources(phases[0]);
      assert forall r :: r in AllResources(phases) <==> r in rs || r in AllResources(phases[1..]);
      ApplyLeavesOthers(objects, rs, faults, [], key);
      PassLeavesOthers(ApplyResources(objects, rs, faults, []).objects, phases[1..], faults, key);
    }
  }

  /** A phase's step as seen by every resource. */
  lemma PhaseStep(objects: Objects, phases: seq<Phase>, faults: Faults)
    requires phases != [] && DistinctKeys(AllResources(phases))
    ensures var a := ApplyResources(objects, Resources(phases[0]), faults, []);
            && (forall r :: r in AllResources(phases[1..]) ==> SameAt(a.objects, objects, r.key))
            && (forall r :: r in Resources(phases[0]) ==>
                  && (Conflicts(a.objects, r) ==> Conflicts(objects, r))
                  && (Desired(objects, r) ==> Desired(a.objects, r)))
            && (!a.failed ==> NoConflict(a.objects, Resources(phases[0])))
            && (!a.failed && a.reasons == [] ==> AllDesired(a.objects, Resources(phases[0])))
  {
    PhasesApart(phases);
    var rs := Resources(phases[0]);
    ReasonsExactly(objects, rs, faults, []);
    forall r | r in rs
      ensures var a := ApplyResources(objects, rs, faults, []);
              && (Conflicts(a.objects, r) ==> Conflicts(objects, r))
              && (Desired(objects, r) ==> Desired(a.objects, r))
              && (!a.failed ==> !Conflicts(a.objects, r))
              && (!a.failed && a.reasons == [] ==> Desired(a.objects, r))
    {
      var i :| 0 <= i < |rs| && rs[i] == r;
      ApplyAt(objects, rs, faults, [], i);
    }
    forall r | r in AllResources(phases[1..])
      ensures SameAt(ApplyResources(objects, rs, faults, []).objects, objects, r.key)
    {
      ApplyLeavesOthers(objects, rs, faults, [], r.key);
    }
  }

  lemma PassLeavesPhase(objects: Objects, phases: seq<Phase>, faults: Faults)
    requires phases != [] && DistinctKeys(AllResources(phases))
    ensures forall r :: r in Resources(phases[0]) ==>
              SameAt(ReconcilePhases(objects, phases[1..], faults).objects, objects, r.key)
  {
    PhasesApart(phases);
    forall r | r in Resources(phases[0])
      ensures SameAt(ReconcilePhases(objects, phases[1..], faults).objects, objects, r.key)
    {
      PassLeavesOthers(objects, phases[1..], faults, r.key);
    }
  }

  /**
   * Whatever fails, a pass brings no new conflict and spoils nothing that is right; one that reports nothing to wait
   * for has made every resource as desired.
   */
  lemma {:induction false} PassIsSafe(objects: Objects, phases: seq<Phase>, faults: Faults)
    requires DistinctKeys(AllResources(phases))
    ensures var p := ReconcilePhases(objects, phases, faults);
            && (forall r :: r in AllResources(phases) && Conflicts(p.objects, r) ==> Conflicts(objects, r))
            && (forall r :: r in AllResources(phases) && Desired(objects, r) ==> Desired(p.objects, r))
            && (p.outcome == Done ==> AllDesired(p.objects, AllResources(phases)))
    decreases |phases|
  {
    if phases != [] {
      PhasesApart(phases);
      PhaseStep(objects, phases, faults);
      var t := ApplyResources(objects, Resources(phases[0]), faults, []).objects;
      PassLeavesPhase(t, phases, faults);
      PassIsSafe(t, phases[1..], faults);
      assert forall r :: r in AllResources(phases) <==> r in Resources(phases[0]) || r in AllResources(phases[1..]);
    }
  }

  // ---------------------------------------------------------------- convergence

  ghost function ConflictingPhases(objects: Objects, phases: seq<Phase>): nat {
    if phases == [] then 0
    else (if NoConflict(objects, Resources(phases[0])) then 0 else 1) + ConflictingPhases(objects, phases[1..])
  }

  lemma {:induction false} CountIsMonotone(o: Objects, p: Objects, phases: seq<Phase>)
    requires forall r :: r in AllResources(phases) && Conflicts(p, r) ==> Conflicts(o, r)
    ensures ConflictingPhases(p, phases) <= ConflictingPhases(o, phases)
    decreases |phases|
  {
    if phases != [] {
      assert forall r :: r in AllResources(phases) <==> r in Resources(phases[0]) || r in AllResources(phases[1..]);
      CountIsMonotone(o, p, phases[1..]);
    }
  }

  lemma CountDependsOnConflicts(o: Objects, p: Objects, phases: seq<Phase>)
    requires forall r :: r in AllResources(phases) ==> (Conflicts(p, r) <==> Conflicts(o, r))
    ensures ConflictingPhases(p, phases) == ConflictingPhases(o, phases)
  {
    CountIsMonotone(o, p, phases);
    CountIsMonotone(p, o, phases);
  }

  /** A pass without failing calls is done exactly when no phase holds a conflict; otherwise it clears one phase. */
  lemma {:induction false} FaultFreePass(objects: Objects, phases: seq<Phase>)
    requires DistinctKeys(AllResources(phases))
    ensures var p := ReconcilePhases(objects, phases, NO_FAULTS);
            var n := ConflictingPhases(objects, phases);
            && (p.outcome == Done <==> n == 0)
            && ConflictingPhases(p.objects, phases) == (if n == 0 then 0 else n - 1)
    decreases |phases|
  {
    if phases != [] {
      PhasesApart(phases);
      PhaseStep(objects, phases, NO_FAULTS);
      var rs := Resources(phases[0]);
      var a := ApplyResources(objects, rs, NO_FAULTS, []);
      ReasonsExactly(objects, rs, NO_FAULTS, []);
      CountDependsOnConflicts(objects, a.objects, phases[1..]);
      FaultFreePass(a.objects, phases[1..]);
      PassLeavesPhase(a.objects, phases, NO_FAULTS);
      assert NoConflict(a.objects, rs);
      assert NoConflict(ReconcilePhases(a.objects, phases[1..], NO_FAULTS).objects, rs);
    }
  }

  function AfterPasses(objects: Objects, phases: seq<Phase>, passes: seq<Faults>): Objects
    decreases |passes|
  {
    if passes == [] then objects
    else AfterPasses(ReconcilePhases(objects, phases, passes[0]).objects, phases, passes[1..])
  }

  function FaultFreePasses(passes: seq<Faults>): nat {
    if passes == [] then 0 else (if passes[0] == NO_FAULTS then 1 else 0) + FaultFreePasses(passes[1..])
  }

  lemma {:induction false} PassesClearPhases(objects: Objects, phases: seq<Phase>, passes: seq<Faults>)
    requires DistinctKeys(AllResources(phases))
    ensures var n := ConflictingPhases(objects, phases);
            var left := ConflictingPhases(AfterPasses(objects, phases, passes), phases);
            left <= Max(0, n - FaultFreePasses(passes))
    decreases |passes|
  {
    if passes != [] {
      var p := ReconcilePhases(objects, phases, passes[0]);
      PassIsSafe(objects, phases, passes[0]);
      CountIsMonotone(objects, p.objects, phases);
      if passes[0] == NO_FAULTS {
        FaultFreePass(objects, phases);
      }
      PassesClearPhases(p.objects, phases, passes[1..]);
    }
  }

  function AfterFaultFreePasses(objects: Objects, phases: seq<Phase>, k: nat): Objects
    decreases k
  {
    if k == 0 then objects
    else AfterFaultFreePasses(ReconcilePhases(objects, phases, NO_FAULTS).objects, phases, k - 1)
  }

  lemma {:induction false} EachPassClearsOne(objects: Objects, phases: seq<Phase>, k: nat)
    requires DistinctKeys(AllResources(phases))
    ensures ConflictingPhases(AfterFaultFreePasses(objects, phases, k), phases)
            == Max(0, ConflictingPhases(objects, phases) - k)
    decreases k
  {
    if k > 0 {
      FaultFreePass(objects, phases);
      EachPassClearsOne(ReconcilePhases(objects, phases, NO_FAULTS).objects, phases, k - 1);
    }
  }

  lemma FinalPass(objects: Objects, phases: seq<Phase>, n: nat)
    requires DistinctKeys(AllResources(phases)) && ConflictingPhases(objects, phases) == n
    ensures var p := ReconcilePhases(objects, phases, NO_FAULTS);
            && (p.outcome == Done <==> n == 0)
            && (p.outcome == Done ==> AllDesired(p.objects, AllResources(phases)))
  {
    FaultFreePass(objects, phases);
    PassIsSafe(objects, phases, NO_FAULTS);
  }

  /**
   * From any objects, with nothing failing, the pass after k others is done exactly when k reaches the number of
   * phases that held a conflict, and then the cluster is as desired.
   */
  lemma ConvergesExactly(objects: Objects, phases: seq<Phase>, k: nat)
    requires DistinctKeys(AllResources(phases))
    ensures var p := ReconcilePhases(AfterFaultFreePasses(objects, phases, k), phases, NO_FAULTS);
            && (p.outcome == Done <==> k >= ConflictingPhases(objects, phases))
            && (p.outcome == Done ==> AllDesired(p.objects, AllResources(phases)))
  {
    EachPassClearsOne(objects, phases, k);
    FinalPass(AfterFaultFreePasses(objects, phases, k), phases, Max(0, ConflictingPhases(objects, phases) - k));
  }

  /** Failing passes in between do not undo progress: only the ones without failures need to be counted. */
  lemma ConvergesDespiteFaults(objects: Objects, phases: seq<Phase>, passes: seq<Faults>)
    requires DistinctKeys(AllResources(phases))
    requires FaultFreePasses(passes) >= ConflictingPhases(objects, phases)
    ensures var p := ReconcilePhases(AfterPasses(objects, phases, passes), phases, NO_FAULTS);
            p.outcome == Done && AllDesired(p.objects, AllResources(phases))
  {
    PassesClearPhases(objects, phases, passes);
    FinalPass(AfterPasses(objects, phases, passes), phases, 0);
  }

  /** Whatever fails, an object with the desired role reference is never deleted. */
  lemma {:induction false} SameRoleRefIsKept(objects: Objects, phases: seq<Phase>, faults: Faults, r: Resource)
    requires DistinctKeys(AllResources(phases)) && r in AllResources(phases)
    requires r.key in objects && objects[r.key].roleRef == r.desired.roleRef
    ensures var t := ReconcilePhases(objects, phases, faults).objects;
            r.key in t && t[r.key].roleRef == r.desired.roleRef
    decreases |phases|
  {
    PhasesApart(phases);
    var rs := Resources(phases[0]);
    var a := ApplyResources(objects, rs, faults, []);
    if r in rs {
      KeptInPhase(objects, rs, faults, [], r);
      PassLeavesPhase(a.objects, phases, faults);
      assert SameAt(ReconcilePhases(a.objects, phases[1..], faults).objects, a.objects, r.key);
    } else {
      ApplyLeavesOthers(objects, rs, faults, [], r.key);
      SameRoleRefIsKept(a.objects, phases[1..], faults, r);
    }
  }

  lemma {:induction false} KeptInPhase(
    objects: Objects, rs: seq<Resource>, faults: Faults, reasons: seq<string>, r: Resource)
    requires DistinctKeys(rs) && r in rs && r.key in objects && objects[r.key].roleRef == r.desired.roleRef
    ensures var t := ApplyResources(objects, rs, faults, reasons).objects;
            r.key in t && t[r.key].roleRef == r.desired.roleRef
    decreases |rs|
  {
    if !Fails(objects, rs[0], faults.CallFor(rs[0].key)) {
      var t := AfterResource(objects, rs[0]);
      var more := if Conflicts(objects, rs[0]) then reasons + [Reason(rs[0].key)] else reasons;
      if r == rs[0] {
        ApplyLeavesOthers(t, rs[1..], faults, more, r.key);
      } else {
        assert r in rs[1..] && r.key != rs[0].key;
        KeptInPhase(t, rs[1..], faults, more, r);
      }
    }
  }

  /** If no object has another role reference, one pass without failing calls is done and leaves all as desired. */
  lemma CleanClusterIsDoneAtOnce(objects: Objects, phases: seq<Phase>)
    requires DistinctKeys(AllResources(phases))
    requires forall r :: r in AllResources(phases) ==> !OtherRoleRef(objects, r)
    ensures var p := ReconcilePhases(objects, phases, NO_FAULTS);
            && p.outcome == Done
            && forall r :: r in AllResources(phases) ==> r.key in p.objects && p.objects[r.key] == r.desired
  {
    NothingToClear(objects, phases);
    FaultFreePass(objects, phases);
    DoneMeansDesired(objects, phases, NO_FAULTS);
    assert AllDesired(ReconcilePhases(objects, phases, NO_FAULTS).objects, AllResources(phases));
  }

  lemma {:induction false} NothingToClear(objects: Objects, phases: seq<Phase>)
    requires forall r :: r in AllResources(phases) ==> !OtherRoleRef(objects, r)
    ensures ConflictingPhases(objects, phases) == 0
  {
    if phases != [] {
      assert forall r :: r in AllResources(phases) <==> r in Resources(phases[0]) || r in AllResources(phases[1..]);
      NothingToClear(objects, phases[1..]);
    }
  }

  lemma DoneMeansDesired(objects: Objects, phases: seq<Phase>, faults: Faults)
    requires DistinctKeys(AllResources(phases))
    ensures var p := ReconcilePhases(objects, phases, faults);
            p.outcome == Done ==> AllDesired(p.objects, AllResources(phases))
  {
    PassIsSafe(objects, phases, faults);
  }

  /** A call that the phase makes fails, or the phase cannot be generated. */
  predicate PhaseFails(objects: Objects, phase: Phase, faults: Faults) {
    || phase.name in faults.generate
    || exists r :: r in Resources(phase) &&
         (r.key in faults.apply || (r.key in faults.delete && OtherRoleRef(objects, r)))
  }

  predicate PhaseWaits(objects: Objects, phase: Phase) {
    exists r :: r in Resources(phase) && OtherRoleRef(objects, r)
  }

  /** The first phase that fails or has something to recreate. */
  function FirstStop(objects: Objects, phases: seq<Phase>, faults: Faults): (n: nat)
    ensures n <= |phases|
  {
    if phases == [] || PhaseFails(objects, phases[0], faults) || PhaseWaits(objects, phases[0]) then 0
    else 1 + FirstStop(objects, phases[1..], faults)
  }

  lemma {:induction false} FirstStopDepends(o: Objects, p: Objects, phases: seq<Phase>, faults: Faults)
    requires forall r :: r in AllResources(phases) ==> SameAt(o, p, r.key)
    ensures FirstStop(o, phases, faults) == FirstStop(p, phases, faults)
    ensures var n := FirstStop(o, phases, faults);
            n < |phases| ==>
              && PhaseFails(o, phases[n], faults) == PhaseFails(p, phases[n], faults)
              && RecreateReasons(o, Resources(phases[n])) == RecreateReasons(p, Resources(phases[n]))
  {
    if phases != [] {
      assert forall r :: r in AllResources(phases) <==> r in Resources(phases[0]) || r in AllResources(phases[1..]);
      SameReasons(o, p, Resources(phases[0]));
      assert forall r :: r in Resources(phases[0]) ==> (OtherRoleRef(o, r) <==> OtherRoleRef(p, r));
      FirstStopDepends(o, p, phases[1..], faults);
    }
  }

  /** A pass reports what the first such phase comes to: an error, or its reasons joined; nothing if there is none. */
  lemma {:induction false} PassReportsExactly(objects: Objects, phases: seq<Phase>, faults: Faults)
    requires DistinctKeys(AllResources(phases))
    ensures var o := ReconcilePhases(objects, phases, faults).outcome;
            var n := FirstStop(objects, phases, faults);
            if n == |phases| then o == Done
            else if PhaseFails(objects, phases[n], faults) then o.Failed?
            else o == NotReady(Join(RecreateReasons(objects, Resources(phases[n]))))
    decreases |phases|
  {
    if phases != [] {
      FirstPhaseExactly(objects, phases, faults);
      if !PhaseFails(objects, phases[0], faults) && !PhaseWaits(objects, phases[0]) {
        var t := ApplyResources(objects, Resources(phases[0]), faults, []).objects;
        PhasesApart(phases);
        RestUntouched(objects, phases, faults);
        FirstStopDepends(t, objects, phases[1..], faults);
        PassReportsExactly(t, phases[1..], faults);
      }
    }
  }

  lemma FirstPhaseExactly(objects: Objects, phases: seq<Phase>, faults: Faults)
    requires phases != [] && DistinctKeys(AllResources(phases))
    ensures var a := ApplyResources(objects, Resources(phases[0]), faults, []);
            && (PhaseFails(objects, phases[0], faults) <==> phases[0].name in faults.generate || a.failed)
            && (!a.failed ==> a.reasons == RecreateReasons(objects, Resources(phases[0])))
            && (!a.failed ==> (a.reasons == [] <==> !PhaseWaits(objects, phases[0])))
  {
    PhasesApart(phases);
    var rs := Resources(phases[0]);
    ApplyFailsExactly(objects, rs, faults, []);
    ReasonsExactly(objects, rs, faults, []);
    if !ApplyResources(objects, rs, faults, []).failed {
      ReasonsInOrder(objects, rs, faults, []);
    }
  }

  lemma RestUntouched(objects: Objects, phases: seq<Phase>, faults: Faults)
    requires phases != [] && DistinctKeys(AllResources(phases))
    ensures var t := ApplyResources(objects, Resources(phases[0]), faults, []).objects;
            forall r :: r in AllResources(phases[1..]) ==> SameAt(t, objects, r.key)
  {
    PhaseStep(objects, phases, faults);
  }
}

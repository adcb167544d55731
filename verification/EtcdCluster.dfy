/**
 * One pass of the etcd reconciler, step by step, and what runs of passes and accepted updates keep:
 * the volume never shrinks, defragmentation keeps its cooldown, backups follow their schedule.
 */
module EtcdCluster {
  import opened Common
  import opened Admission
  import opened ControlPlane
  import opened EtcdVolume
  import opened VolumeStats
  import Backup = EtcdBackup
  import Defrag = EtcdDefragmentation
  import BackupSchedule

  datatype Check = Ok | NotYet | Failing

  /** What one pass meets outside the controller. */
  datatype Environment = Environment(
    peerService: Check,
    clientService: Check,
    podsListed: bool,
    measurement: Measurement,
    pvcsListed: bool,
    pvcApplyFailsAt: Option<nat>,
    etcdClient: bool,
    statefulSet: Check,
    statusesFetched: bool,
    defrag: Defrag.Pass,
    alarms: Option<seq<Alarm>>,
    disarmFailsAt: Option<nat>,
    backup: Backup.Attempt)

  datatype Config = Config(buffer: int, increment: int, watchdogInterval: int)

  datatype Report = Reconciled | NotReadyYet | Error | NilDereference

  // ---------------------------------------------------------------- the steps on values

  /** The size to have; None where the code dereferences an absent size. */
  function TargetSize(spec: Spec, s: EtcdStatus, cfg: Config): Option<int> {
    if spec.etcd.AutoGrowEnabled() then Some(Grow(s.volumeSize, s.volumeUsage, cfg.buffer, cfg.increment))
    else spec.etcd.volumeSize
  }

  function WithUsage(s: EtcdStatus, m: Measurement): Option<EtcdStatus> {
    var usage := RecordUsage(s.volumeUsage, m);
    if usage.Some? then Some(s.(volumeUsage := usage.value)) else None
  }

  predicate PvcApplyFails(pvcs: seq<int>, size: int, failsAt: Option<nat>) {
    failsAt.Some? && failsAt.value < |pvcs| && pvcs[failsAt.value] < size
  }

  /** Claims below the size are raised to it, up to the one whose update fails. */
  function ResizedPVCs(pvcs: seq<int>, size: int, failsAt: Option<nat>): seq<int> {
    seq(|pvcs|, i requires 0 <= i < |pvcs| =>
      if PvcApplyFails(pvcs, size, failsAt) && i >= failsAt.value then pvcs[i] else Max(pvcs[i], size))
  }

  predicate ReachesMeasurement(env: Environment) {
    env.peerService == Ok && env.clientService == Ok && env.podsListed
  }

  /** Usage and size recorded by the pass, if it gets that far. */
  function Sized(spec: Spec, s: EtcdStatus, env: Environment, cfg: Config): Option<EtcdStatus> {
    if !ReachesMeasurement(env) || WithUsage(s, env.measurement).None? then None
    else
      var measured := WithUsage(s, env.measurement).value;
      var size := TargetSize(spec, measured, cfg);
      if size.Some? then Some(measured.(volumeSize := size.value)) else None
  }

  predicate ReachesMaintenance(spec: Spec, s: EtcdStatus, pvcs: seq<int>, env: Environment, cfg: Config) {
    ReachesStatefulSet(spec, s, pvcs, env, cfg) && env.statefulSet == Ok && env.statusesFetched
  }

  /** No call has failed before the first of the services and the set that is not ready. */
  predicate Waits(spec: Spec, s: EtcdStatus, pvcs: seq<int>, env: Environment, cfg: Config) {
    || env.peerService == NotYet
    || (env.peerService == Ok && env.clientService == NotYet)
    || (ReachesStatefulSet(spec, s, pvcs, env, cfg) && env.statefulSet == NotYet)
  }

  predicate ReachesStatefulSet(spec: Spec, s: EtcdStatus, pvcs: seq<int>, env: Environment, cfg: Config) {
    && Sized(spec, s, env, cfg).Some?
    && env.pvcsListed && !PvcApplyFails(pvcs, Sized(spec, s, env, cfg).value.volumeSize, env.pvcApplyFailsAt)
    && env.etcdClient
  }

  ghost predicate ReachesBackup(spec: Spec, s: EtcdStatus, pvcs: seq<int>, env: Environment, cfg: Config) {
    && spec.etcd.backup
    && Maintained(spec, s, pvcs, env, cfg)
  }

  ghost predicate Maintained(spec: Spec, s: EtcdStatus, pvcs: seq<int>, env: Environment, cfg: Config) {
    && ReachesMaintenance(spec, s, pvcs, env, cfg)
    && !(Defrag.Attempts(s.defrag, env.defrag) && env.defrag.fails)
    && var sized := Sized(spec, s, env, cfg).value;
       IsHealthy(env.alarms, sized.volumeSize, sized.volumeUsage, cfg.buffer, spec.etcd.AutoGrowEnabled(),
                 env.disarmFailsAt)
  }

  /** The status after the pass; the deferred patch stores it, unless it fails, however the pass ends. */
  ghost function AfterPass(spec: Spec, s: EtcdStatus, pvcs: seq<int>, env: Environment, cfg: Config): EtcdStatus {
    if !ReachesMeasurement(env) || WithUsage(s, env.measurement).None? then s
    else if Sized(spec, s, env, cfg).None? then WithUsage(s, env.measurement).value
    else
      var sized := Sized(spec, s, env, cfg).value;
      sized.(
        defrag := if ReachesMaintenance(spec, s, pvcs, env, cfg) then Defrag.DefragStep(s.defrag, env.defrag)
                  else s.defrag,
        backup := if ReachesBackup(spec, s, pvcs, env, cfg) then
                    Backup.BackupStep(s.backup, env.backup, cfg.watchdogInterval)
                  else s.backup)
  }

  ghost function PVCsAfterPass(spec: Spec, s: EtcdStatus, pvcs: seq<int>, env: Environment, cfg: Config): seq<int> {
    var sized := Sized(spec, s, env, cfg);
    if sized.Some? && env.pvcsListed then ResizedPVCs(pvcs, sized.value.volumeSize, env.pvcApplyFailsAt) else pvcs
  }

  // ---------------------------------------------------------------- the reconciler

  class EtcdClusterReconciler {
    const cfg: Config
    /** Storage requests of the cluster's volume claims. */
    var pvcs: seq<int>

    constructor (cfg: Config, pvcs: seq<int>)
      ensures this.cfg == cfg && this.pvcs == pvcs
    {
      this.cfg := cfg;
      this.pvcs := pvcs;
    }

    method ReconcileETCDSpaceUsage(hcp: HostedControlPlane, m: Measurement) returns (ok: bool)
      modifies hcp`volumeUsage
      ensures ok <==> WithUsage(old(hcp.Status()), m).Some?
      ensures hcp.Status() == if ok then WithUsage(old(hcp.Status()), m).value else old(hcp.Status())
      ensures ok <==> !m.failed || m.usage > 0
      ensures ok ==> hcp.volumeUsage ==
                     if m.failed && m.usage < old(hcp.volumeUsage) then old(hcp.volumeUsage) else m.usage
    {
      var fsUsage := m.usage;
      if m.failed {
        if fsUsage == 0 {
          return false;
        }
        fsUsage := Max(fsUsage, hcp.volumeUsage);
      }
      hcp.volumeUsage := fsUsage;
      return true;
    }

    method GetETCDVolumeSize(hcp: HostedControlPlane) returns (size: Option<int>)
      ensures size == TargetSize(hcp.spec, hcp.Status(), cfg)
      ensures hcp.spec.etcd.autoGrow == Some(false) ==> size == hcp.spec.etcd.volumeSize
      ensures hcp.spec.etcd.autoGrow != Some(false) ==>
                size == Some(if hcp.volumeSize - hcp.volumeUsage < cfg.buffer then hcp.volumeSize + cfg.increment
                             else hcp.volumeSize)
    {
      if hcp.spec.etcd.AutoGrowEnabled() {
        var value := hcp.volumeSize - hcp.volumeUsage;
        if value < cfg.buffer {
          return Some(hcp.volumeSize + cfg.increment);
        }
        return Some(hcp.volumeSize);
      }
      return hcp.spec.etcd.volumeSize;
    }

    /** No claim ever gets smaller; on success every claim has at least the size. */
    method ReconcilePVCSizes(size: int, listed: bool, failsAt: Option<nat>) returns (ok: bool)
      modifies this`pvcs
      ensures ok <==> listed && !PvcApplyFails(old(pvcs), size, failsAt)
      ensures pvcs == if listed then ResizedPVCs(old(pvcs), size, failsAt) else old(pvcs)
      ensures |pvcs| == |old(pvcs)| && forall i :: 0 <= i < |pvcs| ==> pvcs[i] >= old(pvcs)[i]
      ensures ok ==> forall i :: 0 <= i < |pvcs| ==> pvcs[i] == Max(old(pvcs)[i], size)
      ensures !ok && listed ==>
                && failsAt.Some? && failsAt.value < |pvcs| && old(pvcs)[failsAt.value] < size
                && forall i :: 0 <= i < |pvcs| ==>
                     pvcs[i] == if i < failsAt.value then Max(old(pvcs)[i], size) else old(pvcs)[i]
    {
      if !listed {
        return false;
      }
      for i := 0 to |pvcs|
        invariant |pvcs| == |old(pvcs)|
        invariant forall j :: 0 <= j < i ==> pvcs[j] == Max(old(pvcs)[j], size)
        invariant forall j :: i <= j < |pvcs| ==> pvcs[j] == old(pvcs)[j]
        invariant PvcApplyFails(old(pvcs), size, failsAt) ==> failsAt.value >= i
      {
        if pvcs[i] < size {
          if failsAt == Some(i) {
            return false;
          }
          pvcs := pvcs[i := size];
        }
      }
      return true;
    }

    method ReconcileEtcdCluster(hcp: HostedControlPlane, env: Environment) returns (r: Report)
      modifies this`pvcs, hcp`volumeUsage, hcp`volumeSize, hcp`defrag, hcp`backup
      ensures hcp.Status() == AfterPass(hcp.spec, old(hcp.Status()), old(pvcs), env, cfg)
      ensures pvcs == PVCsAfterPass(hcp.spec, old(hcp.Status()), old(pvcs), env, cfg)
      ensures r == NilDereference <==>
              && ReachesMeasurement(env) && WithUsage(old(hcp.Status()), env.measurement).Some?
              && Sized(hcp.spec, old(hcp.Status()), env, cfg).None?
      ensures r == NotReadyYet <==> Waits(hcp.spec, old(hcp.Status()), old(pvcs), env, cfg)
      ensures r == Reconciled <==>
              && Maintained(hcp.spec, old(hcp.Status()), old(pvcs), env, cfg)
              && (hcp.spec.etcd.backup ==>
                    Backup.BackupOk(old(hcp.backup), env.backup, cfg.watchdogInterval))
    {
      if env.peerService != Ok {
        return if env.peerService == Failing then Error else NotReadyYet;
      }
      if env.clientService != Ok {
        return if env.clientService == Failing then Error else NotReadyYet;
      }
      if !env.podsListed {
        return Error;
      }
      var measured := ReconcileETCDSpaceUsage(hcp, env.measurement);
      if !measured {
        return Error;
      }
      var size := GetETCDVolumeSize(hcp);
      if size.None? {
        return NilDereference;
      }
      hcp.volumeSize := size.value;
      var resized := ReconcilePVCSizes(hcp.volumeSize, env.pvcsListed, env.pvcApplyFailsAt);
      if !resized || !env.etcdClient {
        return Error;
      }
      if env.statefulSet != Ok {
        return if env.statefulSet == Failing then Error else NotReadyYet;
      }
      r := Maintain(hcp, env);
    }

    /** Defragmentation, health and backup, once the StatefulSet is ready. */
    method Maintain(hcp: HostedControlPlane, env: Environment) returns (r: Report)
      modifies hcp`defrag, hcp`backup
      ensures hcp.defrag ==
              if env.statusesFetched then Defrag.DefragStep(old(hcp.defrag), env.defrag) else old(hcp.defrag)
      ensures var healthy := && env.statusesFetched
                             && !(Defrag.Attempts(old(hcp.defrag), env.defrag) && env.defrag.fails)
                             && IsHealthy(env.alarms, hcp.volumeSize, hcp.volumeUsage, cfg.buffer,
                                          hcp.spec.etcd.AutoGrowEnabled(), env.disarmFailsAt);
              && hcp.backup == (if healthy && hcp.spec.etcd.backup then
                    Backup.BackupStep(old(hcp.backup), env.backup, cfg.watchdogInterval)
                  else old(hcp.backup))
              && (r == Reconciled <==> healthy && (hcp.spec.etcd.backup ==>
                    Backup.BackupOk(old(hcp.backup), env.backup, cfg.watchdogInterval)))
      ensures r == Reconciled || r == Error
    {
      if !env.statusesFetched {
        return Error;
      }
      var defragmented := Defrag.ReconcileETCDDefragmentation(hcp, env.defrag);
      if !defragmented {
        return Error;
      }
      var health, _ := EtcdIsHealthy(env.alarms, hcp.volumeSize, hcp.volumeUsage, cfg.buffer,
                                     hcp.spec.etcd.AutoGrowEnabled(), env.disarmFailsAt);
      if health != Healthy {
        return Error;
      }
      if hcp.spec.etcd.backup {
        var backedUp := Backup.ReconcileETCDBackup(hcp, env.backup, cfg.watchdogInterval);
        if !backedUp {
          return Error;
        }
      }
      return Reconciled;
    }
  }

  // ---------------------------------------------------------------- runs

  datatype State = State(spec: Spec, status: EtcdStatus, pvcs: seq<int>)

  /**
   * Users update the spec, subject to admission; the controller reconciles, one pass at a time, and patches the status
   * at its end, which may fail; claims come and go.
   */
  datatype Event = Update(spec: Spec) | Pass(env: Environment, patched: bool) | Claims(pvcs: seq<int>)

  ghost function Next(s: State, e: Event, cfg: Config): State {
    match e
    case Update(spec) => if UpdateAllowed(s.spec, s.status.volumeSize, spec) then s.(spec := spec) else s
    case Pass(env, patched) =>
      State(s.spec,
            if patched then AfterPass(s.spec, s.status, s.pvcs, env, cfg) else s.status,
            PVCsAfterPass(s.spec, s.status, s.pvcs, env, cfg))
    case Claims(pvcs) => s.(pvcs := pvcs)
  }

  ghost function After(s: State, events: seq<Event>, cfg: Config): State
    decreases |events|
  {
    if events == [] then s else After(Next(s, events[0], cfg), events[1..], cfg)
  }

  /** The object as it is admitted on creation. */
  function Created(spec: Spec): State {
    State(spec, INITIAL_STATUS, [])
  }

  /** A fixed size is never below the size already recorded. */
  ghost predicate Invariant(s: State) {
    && Admissible(s.spec)
    && (!s.spec.etcd.AutoGrowEnabled() ==>
          s.spec.etcd.volumeSize.Some? && s.spec.etcd.volumeSize.value >= s.status.volumeSize)
  }

  predicate NegativeFixedSize(spec: Spec) {
    !spec.etcd.AutoGrowEnabled() && spec.etcd.volumeSize.Some? && spec.etcd.volumeSize.value < 0
  }

  lemma CreatedSatisfiesInvariant(spec: Spec)
    requires Admissible(spec) && !NegativeFixedSize(spec)
    ensures Invariant(Created(spec))
  {
    AdmissibleMode(spec);
  }

  /** Every step keeps the invariant and never shrinks a volume or a claim, and the size is never missing. */
  lemma StepNeverShrinks(s: State, e: Event, cfg: Config)
    requires Invariant(s) && cfg.increment >= 0
    ensures var t := Next(s, e, cfg);
            && Invariant(t)
            && t.status.volumeSize >= s.status.volumeSize
            && (!e.Claims? ==>
                  |t.pvcs| == |s.pvcs| && forall i :: 0 <= i < |s.pvcs| ==> t.pvcs[i] >= s.pvcs[i])
    ensures e.Pass? && ReachesMeasurement(e.env) && WithUsage(s.status, e.env.measurement).Some?
            ==> Sized(s.spec, s.status, e.env, cfg).Some?
  {
    AdmissibleMode(s.spec);
  }

  // ---------------------------------------------------------------- what a pass records

  /** Services are ready, pods are listed, and some node answered or none was asked. */
  predicate Measures(env: Environment) {
    && env.peerService == Ok && env.clientService == Ok && env.podsListed
    && (!env.measurement.failed || env.measurement.usage > 0)
  }

  /** The usage a measuring pass records. */
  function RecordedUsage(s: EtcdStatus, m: Measurement): int {
    if m.failed && m.usage < s.volumeUsage then s.volumeUsage else m.usage
  }

  /**
   * A stored pass over an admitted object that measures records the usage and, with a fixed size, that size; with
   * auto-grow it adds the increment exactly if the old size less the new usage is below the buffer. Any other pass
   * leaves usage and size alone.
   */
  lemma SizeRecordedExactly(s: State, env: Environment, cfg: Config)
    requires Admissible(s.spec)
    ensures var t := Next(s, Pass(env, true), cfg).status;
            var usage := RecordedUsage(s.status, env.measurement);
            if !Measures(env) then t.volumeUsage == s.status.volumeUsage && t.volumeSize == s.status.volumeSize
            else
              && t.volumeUsage == usage
              && (s.spec.etcd.autoGrow == Some(false) ==> Some(t.volumeSize) == s.spec.etcd.volumeSize)
              && (s.spec.etcd.autoGrow != Some(false) ==>
                    t.volumeSize == s.status.volumeSize +
                                    if s.status.volumeSize - usage < cfg.buffer then cfg.increment else 0)
  {
    AdmissibleMode(s.spec);
  }

  /** An accepted update of the fixed size takes effect with the next measuring pass, and stays. */
  lemma UpdateTakesEffect(s: State, spec: Spec, env: Environment, cfg: Config)
    requires UpdateAllowed(s.spec, s.status.volumeSize, spec) && spec.etcd.autoGrow == Some(false) && Measures(env)
    ensures Some(After(s, [Update(spec), Pass(env, true)], cfg).status.volumeSize) == spec.etcd.volumeSize
  {
    var updated := Next(s, Update(spec), cfg);
    SizeRecordedExactly(updated, env, cfg);
    assert [Update(spec), Pass(env, true)][1..] == [Pass(env, true)];
    assert After(updated, [Pass(env, true)], cfg) == Next(updated, Pass(env, true), cfg);
  }

  /** Stored passes that all measure the same usage. */
  ghost predicate ConstantUsage(events: seq<Event>, usage: nat) {
    forall e :: e in events ==>
      e.Pass? && e.patched && Measures(e.env) && e.env.measurement == Measurement(usage, false)
  }

  /** At constant usage n passes grow an auto-growing volume by exactly min(n, GrowthSteps) increments. */
  lemma {:induction false} PassesGrowExactly(s: State, events: seq<Event>, usage: nat, cfg: Config)
    requires Admissible(s.spec) && s.spec.etcd.autoGrow != Some(false)
    requires ConstantUsage(events, usage) && cfg.increment > 0
    ensures var steps := GrowthSteps(s.status.volumeSize, usage, cfg.buffer, cfg.increment);
            After(s, events, cfg).status.volumeSize ==
            s.status.volumeSize + (if |events| < steps then |events| else steps) * cfg.increment
    decreases |events|
  {
    PassesGrowRepeatedly(s, events, usage, cfg);
    GrowthIsExact(s.status.volumeSize, usage, cfg.buffer, cfg.increment, |events|);
  }

  lemma {:induction false} PassesGrowRepeatedly(s: State, events: seq<Event>, usage: nat, cfg: Config)
    requires Admissible(s.spec) && s.spec.etcd.autoGrow != Some(false) && ConstantUsage(events, usage)
    ensures After(s, events, cfg).status.volumeSize ==
            GrowRepeatedly(s.status.volumeSize, usage, cfg.buffer, cfg.increment, |events|)
    decreases |events|
  {
    if events != [] {
      assert events[0] in events && forall e :: e in events[1..] ==> e in events;
      SizeRecordedExactly(s, events[0].env, cfg);
      PassesGrowRepeatedly(Next(s, events[0], cfg), events[1..], usage, cfg);
    }
  }

  // ---------------------------------------------------------------- how far a pass gets

  /** The claim whose update fails, if it is reached: the first one below the size at which the call fails. */
  predicate ClaimUpdateFails(pvcs: seq<int>, size: int, env: Environment) {
    env.pvcApplyFailsAt.Some? && env.pvcApplyFailsAt.value < |pvcs| && pvcs[env.pvcApplyFailsAt.value] < size
  }

  /** Everything before the maintenance works, with the size that the pass has recorded. */
  predicate GetsToMaintenance(pvcs: seq<int>, size: int, env: Environment) {
    && Measures(env) && env.pvcsListed && !ClaimUpdateFails(pvcs, size, env)
    && env.etcdClient && env.statefulSet == Ok && env.statusesFetched
  }

  /** Every alarm is NOSPACE and is tolerated, and listing and disarming work. */
  ghost predicate NoActiveAlarm(spec: Spec, t: EtcdStatus, env: Environment, cfg: Config) {
    && env.alarms.Some?
    && (forall a :: a in env.alarms.value ==>
          && a.kind == NoSpace
          && (t.volumeSize - t.volumeUsage >= cfg.buffer || spec.etcd.autoGrow != Some(false)))
    && (t.volumeSize - t.volumeUsage >= cfg.buffer && env.disarmFailsAt.Some? ==>
          env.disarmFailsAt.value >= |NoSpaceAlarms(env.alarms.value)|)
  }

  /**
   * Defragmentation is considered exactly when all before it works, and a backup exactly when the object asks for it,
   * no attempted defragmentation failed and no alarm is active.
   */
  lemma MaintainedExactly(s: State, env: Environment, cfg: Config)
    requires Admissible(s.spec)
    ensures var t := Next(s, Pass(env, true), cfg).status;
            var considered := GetsToMaintenance(s.pvcs, t.volumeSize, env);
            && t.defrag == (if considered then Defrag.DefragStep(s.status.defrag, env.defrag) else s.status.defrag)
            && t.backup == (if && considered && s.spec.etcd.backup
                               && !(Defrag.Attempts(s.status.defrag, env.defrag) && env.defrag.fails)
                               && NoActiveAlarm(s.spec, t, env, cfg)
                            then Backup.BackupStep(s.status.backup, env.backup, cfg.watchdogInterval)
                            else s.status.backup)
            && (Maintained(s.spec, s.status, s.pvcs, env, cfg) <==>
                  && considered && !(Defrag.Attempts(s.status.defrag, env.defrag) && env.defrag.fails)
                  && NoActiveAlarm(s.spec, t, env, cfg))
  {
    AdmissibleMode(s.spec);
    if Sized(s.spec, s.status, env, cfg).Some? {
      var sized := Sized(s.spec, s.status, env, cfg).value;
      HealthIs(env, sized, s.spec, cfg);
    }
  }

  /** A pass asks to be called again exactly if the first thing that is not in order is one that may still get ready. */
  lemma WaitsExactly(s: State, env: Environment, cfg: Config)
    requires Admissible(s.spec)
    ensures var size := Next(s, Pass(env, true), cfg).status.volumeSize;
            Waits(s.spec, s.status, s.pvcs, env, cfg) <==>
            || env.peerService == NotYet
            || (env.peerService == Ok && env.clientService == NotYet)
            || (&& Measures(env) && env.pvcsListed && !ClaimUpdateFails(s.pvcs, size, env)
                && env.etcdClient && env.statefulSet == NotYet)
  {
    AdmissibleMode(s.spec);
  }

  lemma HealthIs(env: Environment, t: EtcdStatus, spec: Spec, cfg: Config)
    ensures IsHealthy(env.alarms, t.volumeSize, t.volumeUsage, cfg.buffer, spec.etcd.AutoGrowEnabled(),
                      env.disarmFailsAt)
            <==> NoActiveAlarm(spec, t, env, cfg)
  {
  }

  /** How far claims are raised: to the recorded size, up to the one whose update fails; never lowered. */
  lemma ClaimsRaisedExactly(s: State, env: Environment, cfg: Config)
    requires Admissible(s.spec)
    ensures var t := Next(s, Pass(env, true), cfg);
            var size := t.status.volumeSize;
            && |t.pvcs| == |s.pvcs|
            && forall i :: 0 <= i < |s.pvcs| ==>
                 t.pvcs[i] ==
                 if && Measures(env) && env.pvcsListed && s.pvcs[i] < size
                    && !(ClaimUpdateFails(s.pvcs, size, env) && i >= env.pvcApplyFailsAt.value)
                 then size else s.pvcs[i]
  {
    AdmissibleMode(s.spec);
  }

  lemma {:induction false} RunNeverShrinks(s: State, events: seq<Event>, cfg: Config)
    requires Invariant(s) && cfg.increment >= 0
    ensures Invariant(After(s, events, cfg))
    ensures After(s, events, cfg).status.volumeSize >= s.status.volumeSize
    decreases |events|
  {
    if events != [] {
      StepNeverShrinks(s, events[0], cfg);
      RunNeverShrinks(Next(s, events[0], cfg), events[1..], cfg);
    }
  }

  lemma {:induction false} AfterConcat(s: State, a: seq<Event>, b: seq<Event>, cfg: Config)
    ensures After(s, a + b, cfg) == After(After(s, a, cfg), b, cfg)
    decreases |a|
  {
    if a == [] {
      assert a + b == b;
    } else {
      assert (a + b)[0] == a[0] && (a + b)[1..] == a[1..] + b;
      AfterConcat(Next(s, a[0], cfg), a[1..], b, cfg);
    }
  }

  ghost predicate NeverShrinks(spec: Spec, before: seq<Event>, more: seq<Event>, cfg: Config) {
    After(Created(spec), before + more, cfg).status.volumeSize >= After(Created(spec), before, cfg).status.volumeSize
  }

  /** An environment in which a pass gets as far as recording the size. */
  function Measuring(): Environment {
    Environment(Ok, Ok, true, Measurement(0, false), false, None, false, NotYet, false,
                Defrag.Pass(map[], 0, 0, 0, false), None, None,
                Backup.Attempt(false, false, t => t + 1, 0, false, [], false, 0, false))
  }

  /** From creation on the recorded size never shrinks in any run, exactly for objects without a negative size. */
  lemma VolumeNeverShrinksExactly(spec: Spec, cfg: Config)
    requires Admissible(spec) && cfg.increment >= 0
    ensures (forall before, more :: NeverShrinks(spec, before, more, cfg)) <==> !NegativeFixedSize(spec)
  {
    if NegativeFixedSize(spec) {
      var pass := [Pass(Measuring(), true)];
      var s := Created(spec);
      assert After(s, [], cfg) == s && [] + pass == pass && pass[1..] == [];
      assert After(s, pass, cfg) == Next(s, pass[0], cfg);
      assert !NeverShrinks(spec, [], pass, cfg);
    } else {
      CreatedSatisfiesInvariant(spec);
      forall before, more
        ensures NeverShrinks(spec, before, more, cfg)
      {
        RunNeverShrinks(Created(spec), before, cfg);
        AfterConcat(Created(spec), before, more, cfg);
        RunNeverShrinks(After(Created(spec), before, cfg), more, cfg);
      }
    }
  }

  lemma {:induction false} StaysAdmissible(s: State, events: seq<Event>, cfg: Config)
    requires Admissible(s.spec)
    ensures Admissible(After(s, events, cfg).spec)
    decreases |events|
  {
    if events != [] {
      StaysAdmissible(Next(s, events[0], cfg), events[1..], cfg);
    }
  }

  /** After any run from an admitted object, no pass dereferences an absent size. */
  lemma SizeIsAlwaysThere(spec: Spec, events: seq<Event>, env: Environment, cfg: Config)
    requires Admissible(spec)
    ensures var s := After(Created(spec), events, cfg);
            ReachesMeasurement(env) && WithUsage(s.status, env.measurement).Some?
            ==> Sized(s.spec, s.status, env, cfg).Some?
  {
    StaysAdmissible(Created(spec), events, cfg);
    AdmissibleMode(After(Created(spec), events, cfg).spec);
  }

  // ---------------------------------------------------------------- maintenance over runs

  predicate ClockFrom(now: int, events: seq<Event>)
    decreases |events|
  {
    events == [] ||
    match events[0]
    case Update(_) => ClockFrom(now, events[1..])
    case Claims(_) => ClockFrom(now, events[1..])
    case Pass(env, _) =>
      && now <= env.defrag.check <= env.defrag.attempt <= env.backup.check <= env.backup.recorded
      && ClockFrom(env.backup.recorded, events[1..])
  }

  /** The defragmentation passes that a run reaches and records. */
  ghost function DefragPasses(s: State, events: seq<Event>, cfg: Config): seq<Defrag.Pass>
    decreases |events|
  {
    if events == [] then []
    else
      var rest := DefragPasses(Next(s, events[0], cfg), events[1..], cfg);
      if events[0].Pass? && events[0].patched && ReachesMaintenance(s.spec, s.status, s.pvcs, events[0].env, cfg)
      then [events[0].env.defrag] + rest else rest
  }

  ghost function BackupAttempts(s: State, events: seq<Event>, cfg: Config): seq<Backup.Attempt>
    decreases |events|
  {
    if events == [] then []
    else
      var rest := BackupAttempts(Next(s, events[0], cfg), events[1..], cfg);
      if events[0].Pass? && events[0].patched && ReachesBackup(s.spec, s.status, s.pvcs, events[0].env, cfg)
      then [events[0].env.backup] + rest else rest
  }

  lemma {:induction false} EarlierClock(now: int, then_: int, passes: seq<Defrag.Pass>, attempts: seq<Backup.Attempt>)
    requires now <= then_
    ensures Defrag.ClockFrom(then_, passes) ==> Defrag.ClockFrom(now, passes)
    ensures Backup.ClockFrom(then_, attempts) ==> Backup.ClockFrom(now, attempts)
  {
  }

  /** A whole run treats the maintenance status as the run of the passes that reach it. */
  lemma {:induction false} MaintenanceProjection(s: State, events: seq<Event>, cfg: Config, now: int)
    requires ClockFrom(now, events)
    ensures After(s, events, cfg).status.defrag ==
            Defrag.RunDefragmentation(s.status.defrag, DefragPasses(s, events, cfg))
    ensures Defrag.ClockFrom(now, DefragPasses(s, events, cfg))
    ensures After(s, events, cfg).status.backup ==
            Backup.RunBackups(s.status.backup, BackupAttempts(s, events, cfg), cfg.watchdogInterval)
    ensures Backup.ClockFrom(now, BackupAttempts(s, events, cfg))
    decreases |events|
  {
    if events != [] {
      var t := Next(s, events[0], cfg);
      var later := if events[0].Pass? then events[0].env.backup.recorded else now;
      MaintenanceProjection(t, events[1..], cfg, later);
      var passes := DefragPasses(t, events[1..], cfg);
      var attempts := BackupAttempts(t, events[1..], cfg);
      EarlierClock(now, later, passes, attempts);
      if events[0].Pass? {
        var env := events[0].env;
        EarlierClock(env.defrag.attempt, later, passes, attempts);
        assert ([env.defrag] + passes)[1..] == passes;
        assert ([env.backup] + attempts)[1..] == attempts;
      }
    }
  }

  /**
   * Within the cooldown after an attempt, a later pass repeats it exactly if it finds a fragmented member and the patch
   * that should have recorded the attempt was lost; whether the attempt failed does not matter.
   */
  lemma RepeatedExactlyIfPatchLost(s: State, env: Environment, patched: bool, cfg: Config, later: Defrag.Pass)
    requires ReachesMaintenance(s.spec, s.status, s.pvcs, env, cfg) && Defrag.Attempts(s.status.defrag, env.defrag)
    requires env.defrag.check <= env.defrag.attempt <= later.check < env.defrag.attempt + Defrag.COOLDOWN
    ensures Defrag.Attempts(Next(s, Pass(env, patched), cfg).status.defrag, later) <==>
            !patched && exists member :: member in later.statuses && Defrag.Fragmented(later.statuses[member])
  {
  }

  /** In any run of updates and passes, k recorded defragmentation attempts take at least k - 1 cooldowns. */
  lemma DefragmentationRateOfRuns(s: State, events: seq<Event>, cfg: Config, now: int)
    requires ClockFrom(now, events)
    ensures var t := Defrag.AttemptTimes(s.status.defrag, DefragPasses(s, events, cfg));
            t != [] ==> (|t| - 1) * Defrag.COOLDOWN <= t[|t| - 1] - t[0]
  {
    MaintenanceProjection(s, events, cfg, now);
    Defrag.DefragmentationRate(s.status.defrag, DefragPasses(s, events, cfg), now);
  }

  /** The backups that a run records. */
  ghost function BackupsOfRun(s: State, events: seq<Event>, cfg: Config): seq<Backup.Attempt> {
    Backup.Backups(s.status.backup, BackupAttempts(s, events, cfg), cfg.watchdogInterval)
  }

  /**
   * In any run of updates and passes, n recorded backups on one schedule are separated by at least n - 1 of its points,
   * less the backups after which it has none to give; the schedule may change with the object, see `SpacedAt`.
   */
  lemma BackupRateOfRuns(s: State, events: seq<Event>, cfg: Config, now: int, next: BackupSchedule.Schedule)
    requires ClockFrom(now, events) && BackupSchedule.IsSchedule(next)
    requires Backup.OnSchedule(next, BackupsOfRun(s, events, cfg))
    ensures Backup.BoundedBySchedule(next, BackupsOfRun(s, events, cfg))
  {
    var attempts := BackupAttempts(s, events, cfg);
    assert Backup.ClockFrom(now, attempts) by {
      MaintenanceProjection(s, events, cfg, now);
    }
    Backup.BackupsBoundedBySchedule(next, s.status.backup, attempts, cfg.watchdogInterval, now);
  }

  /** Whatever schedules the updates ask for, each backup of a run follows the one before it by its own schedule. */
  lemma BackupSpacingOfRuns(s: State, events: seq<Event>, cfg: Config, now: int, i: nat)
    requires ClockFrom(now, events) && i + 1 < |BackupsOfRun(s, events, cfg)|
    ensures var b := BackupsOfRun(s, events, cfg);
            b[i + 1].next(b[i].recorded) < b[i + 1].recorded
  {
    var attempts := BackupAttempts(s, events, cfg);
    MaintenanceProjection(s, events, cfg, now);
    Backup.BackupsAreSpaced(s.status.backup, attempts, cfg.watchdogInterval, now);
    Backup.SpacedAt(s.status.backup.last, BackupsOfRun(s, events, cfg), i);
  }
}

# Hosted control plane: verified models

A Dafny model of the parts of the hosted-control-plane operator that keep state over many reconciles or compile one
form into another. The Kubernetes API server is a map of objects with immutable fields, a reconcile is one step, and
everything outside (API faults, cert-manager, users, clocks, the kubelet) is an arbitrary input of that step. Methods
follow the code's loops and branches and are verified against functions on values; the lemmas are about those
functions, mostly over every run of steps.

| file | what it covers |
|---|---|
| `StatefulSetMigration.dfy` | changing labels under an immutable selector: widen, wait, delete, recreate |
| `PodMigration.dfy` | its pods meanwhile: which ones the recreated set adopts and which it strands |
| `Admission.dfy`, `ControlPlane.dfy` | the admission webhook and the object's etcd status |
| `EtcdVolume.dfy` | growth arithmetic, the 90% quota, NOSPACE alarms |
| `VolumeStats.dfy` | how full the volumes are, one query per node |
| `BackupSchedule.dfy`, `EtcdBackup.dfy`, `EtcdDefragmentation.dfy` | timed maintenance and its rates |
| `EtcdCluster.dfy` | a whole etcd pass, interleaved with admitted updates |
| `NetworkPolicyTargets.dfy`, `NetworkPolicyRules.dfy`, `AuditWebhookPorts.dfy` | the policy compiler and its two back ends |
| `Phases.dfy`, `PhaseHistory.dfy` | the phase pipelines, conditions, latches, the Ready summary |
| `CADefinitions.dfy`, `CABundle.dfy`, `CAChain.dfy` | two-generation CA bundles; the chain of CAs and issuers |
| `RBAC.dfy`, `Secrets.dfy` | delete-and-recreate under immutable fields |
| `Ordering.dfy`, `Args.dfy`, `Checksum.dfy` | output that does not depend on map iteration order |
| `Common.dfy` | small shared datatypes |

`dafny verify dfyconfig.toml` checks all of it.

## What the proofs found

- **Label migration.** The label-change error branch is dead, and the protocol reaches the desired labels if and only
  if no existing template label contradicts a desired one (or the set has to be replaced anyway).
- **Stranded pods.** The code waits for one available pod, not for the rollout of the widened template. For every change
  of labels that the old ones neither carry nor contradict, the pods a rollout has not reached when the set is deleted
  are stranded, even all of them. In a migration nothing is stranded if and only if every pod is of the current
  revision at the deletion (updated replicas equal replicas, which a caller can check and the code does not) or the
  old labels carry the new ones. With every pod current, only another immutable field that changes before the
  template is widened strands pods.
- **Volume size.** Never shrinks over any run, if and only if the object was not created with a negative fixed size;
  the webhook rejects zero, not negative sizes.
- **Quota and growth.** Reaching the quota always triggers growth exactly while a tenth of the volume is below the
  buffer, so up to just under 5000Mi. Beyond that a full quota is answered by disarming the alarm.
- **Usage.** Failures never lower the stored usage, but a pass that finds no scheduled etcd pod sets it to zero.
- **Cooldown.** A failed defragmentation starts the cooldown like a successful one, but only if the status patch at the
  end of the pass succeeds; if it is lost, the next pass tries again at once.
- **Lost close error.** A backup's deferred function joins the error of closing the etcd client to an `err` of the inner
  block, which hides the named result, and does so after the return. That error is dropped on every path: a pass in
  which only the close fails reports success.
- **Back ends.** The Kubernetes form admits what the Cilium form admits for every target kind except the API server
  target (one recorded IP against any API server) and label targets with pod labels, whose exact condition is
  `IncludesCilium`: the code sets the pod selector only when there are no pod labels, and its two Cilium selectors are
  alternatives. Restricted ingress without any target is deny-all in one back end and unrestricted in the other. A
  port without a protocol is TCP only in one and any protocol in the other, so a rule for one port widens in the
  fallback only for TCP, and a rule for every port for all protocols.
- **Schedules without points.** A cron expression such as the 31st of February is accepted. The library then answers
  with the zero time, and a backup is taken in every pass that can take one.
- **Nil interface.** With both target maps absent and no Cilium client, the policy reconcile calls `Delete` on a nil
  interface. This is latent: every caller in the repository passes at least an egress map.
- **Ready condition.** The workload phase's condition starts with the prefix that the summary skips, so it does not
  count towards Ready.
- **CA bundles.** A certificate rotated in and out between two reconciles is never trusted; every observed one is, and
  stays so for one more generation.
- **Audit webhooks.** The check for a target that is listed already asks for a pointer type no target has, so nothing
  is ever deduplicated; the meaning is unaffected.
- **Arguments and checksums.** Sorted keys do not make sorted argument strings (`a` and `a-b`). Keys and values are
  hashed without separators, so contents that differ only in where a key ends have equal checksums.

## Assumptions

- The controller is the only manager of its objects, so server-side apply replaces the fields it sets; a reconcile is
  atomic; the deferred patch at its end stores all of the status or, when it fails, nothing.
- The API server keeps a StatefulSet's selector inside its template, refuses changes of immutable fields, and refuses
  an apply for a changed secret type, for changed data of an immutable secret, or for what is wrong with the applied
  secret itself. Error texts and the regular expressions that recognise them are these abstract results.
- A StatefulSet starts pods and rolls them from its current template; a pod keeps the labels it was created with.
  Deleting the set with orphaned dependents leaves its pods, and the set created next adopts exactly those that its
  selector matches.
- A Kubernetes port without a protocol is TCP, a Cilium one any protocol. Cilium does not enforce a direction with an
  empty rule list and reads a rule without peers as a wildcard; an endpoint selector that does not mention the
  namespace is confined to the policy's own; CIDRs and names reach only endpoints outside the cluster. A Kubernetes
  peer with no field set admits nothing. Endpoints have IPv4 addresses.
- Versions are ordered values. A schedule is a function to the next point or, without one, to a time that has passed;
  it may differ from pass to pass. Times are integer seconds, sizes are integer bytes (64-bit wrap-around is modelled
  where the quota is computed), and the fragmentation ratio is exact. Strings are compared character by character. The
  hash of the checksum is a parameter.
- A snapshot or upload whose context the backup watchdog cancels fails; the code itself only cancels, and would record
  an upload that returns success all the same.
- An answer of the API server that refuses an object as invalid lists its causes. The code tests the causes with a
  predicate that holds of an empty list, so it would also delete on an answer without any.
- `ControlPlane.HostedControlPlane` and `Phases.HostedControlPlane` are two views of one object: the etcd status, and
  conditions with the latched fields.

## Model

| member | source | states |
|---|---|---|
| StatefulSetMigration.Cluster.ReconcileWorkload | pkg/reconcilers/reconciler.go:101-238 | apply, or delete on a forbidden change; the stored set and the result for every kind of fault |
| StatefulSetMigration.Cluster.ChooseLabels | pkg/reconcilers/reconciler.go:1028-1062 | the imperative label decision computes the plan used by all lemmas |
| StatefulSetMigration.Cluster.ReconcileStatefulset | pkg/reconcilers/reconciler.go:1006-1145 | stored set and answer for every state and every failing call; Ready only with a pod available and no call failed |
| StatefulSetMigration.StepFromValid | pkg/reconcilers/reconciler.go:1037-1061 | every applied selector is inside its template; refusal and invalid applies are unreachable |
| StatefulSetMigration.NeverRefusedOverRuns | pkg/reconcilers/reconciler.go:1035-1062 | the same after any run of reconciles with changing labels and availability |
| StatefulSetMigration.ActionExactly | pkg/reconcilers/reconciler.go:1035-1062 | exactly when a reconcile waits, deletes or applies, from the stored set's fields |
| StatefulSetMigration.StepExactly | pkg/reconcilers/reconciler.go:1035-1062 | what it leaves, label by label: existing template labels win until the template carries the desired ones |
| StatefulSetMigration.ReportExactly | pkg/reconcilers/reconciler.go:1054-1145 | exactly when it answers Ready and when not ready yet, for every failing call |
| StatefulSetMigration.SettledReportsReady | pkg/reconcilers/reconciler.go:1147-1152 | a settled set stays settled over any run and reports Ready whenever a pod is available |
| StatefulSetMigration.ConvergedReportsReady | pkg/reconcilers/reconciler.go:1035-1062 | so three reconciles that find the set ready lead to Ready |
| StatefulSetMigration.DeletedExactly | pkg/reconcilers/reconciler.go:175-204 | exactly when the set is deleted |
| StatefulSetMigration.LabelDeletionFollowsWidening | pkg/reconcilers/reconciler.go:1035-1062 | a deletion for labels alone finds one available pod and a template that carries the new labels |
| PodMigration.AdoptionLosesNoPod | pkg/reconcilers/reconciler.go:1103-1112 | recreating the set splits the pods into adopted and stranded ones, none lost or doubled |
| PodMigration.OwnPodsMatchOverRuns | pkg/reconcilers/reconciler.go:1035-1062 | over any run of reconciles, rollouts, starts and stops every pod of the set matches the set's own selector |
| PodMigration.PodsStrandedExactly | pkg/reconcilers/reconciler.go:175-204 | a deletion and recreation strands exactly the pods that do not carry the labels asked for |
| PodMigration.CurrentPodsAreKept | pkg/reconcilers/reconciler.go:1054-1062 | a deletion for labels alone strands nothing when every pod is of the current revision |
| PodMigration.CurrentPodsStrandedExactly | pkg/reconcilers/reconciler.go:175-204 | with every pod current, pods are stranded if and only if another immutable field changes before the template is widened |
| PodMigration.MigrationPhases | pkg/reconcilers/reconciler.go:1035-1062 | over any migration run the set is deleted at most once, and nothing is stranded before |
| PodMigration.MigrationStrandsExactly | pkg/reconcilers/reconciler.go:1035-1062 | in any run of a migration the deletion strands nothing if and only if every pod is current or the old labels carry the new |
| PodMigration.RolloutRemainderIsStranded | pkg/reconcilers/reconciler.go:1147-1152 | with k of n pods rolled and one available, three reconciles strand the other n - k, for every such label change |
| PodMigration.GuardedRunsStrandNothing | pkg/reconcilers/reconciler.go:1035-1062 | runs with any labels strand nothing if deletions wait for the rollout and the labels stay until the recreation |
| StatefulSetMigration.RankBounded | pkg/reconcilers/reconciler.go:1035-1062 | at most three non-waiting steps remain; none exactly when settled |
| StatefulSetMigration.StepDropsRank | pkg/reconcilers/reconciler.go:1035-1062 | a step waits on an unready set or comes exactly one step closer |
| StatefulSetMigration.RunLowersRank | pkg/reconcilers/reconciler.go:1035-1062 | over a run the rank falls by the number of reconciles that found the set ready |
| StatefulSetMigration.Converges | pkg/reconcilers/reconciler.go:1035-1062 | three reconciles that find the set ready reach selector = template = desired |
| StatefulSetMigration.Blocked | pkg/reconcilers/reconciler.go:1037-1050 | on a contradicting label the existing value wins and the run stays at a fixed point that is not the desired one |
| StatefulSetMigration.ConvergesExactly | pkg/reconcilers/reconciler.go:1035-1062 | some run settles if and only if no shared key contradicts or the set is replaced anyway |
| Admission.AdmissibleMode | api/v1alpha1/webhook/hostedcontrolplane_webhook.go:63-81 | an admitted object has a version, and a fixed size exactly without auto-grow |
| Admission.ValidateIssuers | api/v1alpha1/webhook/hostedcontrolplane_webhook.go:83-91 | the loop reports the local issuer exactly when it is configured |
| Admission.ValidateCreate | api/v1alpha1/webhook/hostedcontrolplane_webhook.go:52-107 | the errors are exactly the violated rules, each once; none exactly for admissible objects |
| Admission.AdmissibleExactly | api/v1alpha1/webhook/hostedcontrolplane_webhook.go:52-107 | which objects are admitted, field by field, with the two-day defaults |
| Admission.ValidateUpdate | api/v1alpha1/webhook/hostedcontrolplane_webhook.go:123-180 | exactly which updates are accepted, and which check each other result stands for |
| Admission.UpdateAllowedExactly | api/v1alpha1/webhook/hostedcontrolplane_webhook.go:123-180 | an update is accepted if and only if it is admissible and neither version nor size floor is undercut |
| Admission.UnchangedIsAccepted | api/v1alpha1/webhook/hostedcontrolplane_webhook.go:123-180 | an admitted object can always be updated to itself |
| EtcdVolume.GrowthIsExact | pkg/reconcilers/etcd_cluster/reconciler.go:302-326 | n reconciles at constant usage take exactly min(n, ceil(missing/increment)) growth steps |
| EtcdVolume.GrowthConverges | pkg/reconcilers/etcd_cluster/reconciler.go:302-326 | the size reached has the headroom, is a fixed point, and fewer steps would not do |
| EtcdVolume.QuotaOverflowsExactly | pkg/reconcilers/etcd_cluster/reconciler.go:837-838 | the 64-bit product is exact up to MaxInt64/90 and not beyond |
| EtcdVolume.QuotaLeavesATenth | pkg/reconcilers/etcd_cluster/reconciler.go:837-838 | the quota leaves a tenth of the volume, rounded up |
| EtcdVolume.QuotaTriggersGrowthExactly | pkg/reconcilers/etcd_cluster/reconciler.go:306-322 | usage at the quota always triggers growth if and only if a tenth is less than the buffer |
| EtcdVolume.DeployedThreshold | pkg/hostedcontrolplane/controller.go:111-112 | with the deployed buffer that is up to 5000Mi minus ten bytes |
| EtcdVolume.DeployedGrowth | pkg/hostedcontrolplane/controller.go:111-112 | growth with the deployed buffer and increment, in bytes |
| EtcdVolume.EtcdIsHealthy | pkg/reconcilers/etcd_cluster/reconciler.go:636-687 | exactly which alarms make the cluster unhealthy and which are disarmed, for every failing call |
| EtcdVolume.HealthyExactly | pkg/reconcilers/etcd_cluster/reconciler.go:652-686 | healthy if and only if every alarm is NOSPACE and there is headroom or auto-grow |
| EtcdVolume.FullQuotaDisarms | pkg/reconcilers/etcd_cluster/reconciler.go:652-672 | above the threshold a full quota grows nothing, disarms every NOSPACE alarm and counts as healthy iff there is no other |
| VolumeStats.ExtractPodVolumeUsage | pkg/reconcilers/etcd_cluster/volume_stats/volume_stats.go:124-144 | the nested loops return the first reported data volume in document order, clamped, else zero |
| VolumeStats.DataVolumesExactly | pkg/reconcilers/etcd_cluster/volume_stats/volume_stats.go:147-154 | which volumes count: claims by prefix, others by name |
| VolumeStats.NoPodMissesItsNode | pkg/reconcilers/etcd_cluster/volume_stats/volume_stats.go:64-82 | the branch for a node without statistics is unreachable; a pod's result is that of its own node |
| VolumeStats.OncePerNodeIsEnough | pkg/reconcilers/etcd_cluster/volume_stats/volume_stats.go:42-88 | one fetch per distinct node equals the maximum over per-pod fetches; failure iff some pod's node failed |
| VolumeStats.FailuresNeverLowerUsage | pkg/reconcilers/etcd_cluster/reconciler.go:427-452 | partial failure never lowers the stored usage, total failure leaves it alone |
| VolumeStats.UsageDropsExactly | pkg/reconcilers/etcd_cluster/reconciler.go:427-452 | the stored usage drops if and only if every scheduled pod's node answers with less, which includes no pod being scheduled |
| VolumeStats.UsageRecordedExactly | pkg/reconcilers/etcd_cluster/reconciler.go:427-452 | the usage recorded, from the nodes' answers for the scheduled pods, in every case of failure |
| BackupSchedule.DailyScheduleFor | pkg/reconcilers/etcd_cluster/backup_schedule.go:29-37 | minute and hour lie in the night window |
| BackupSchedule.DailyWindow | pkg/reconcilers/etcd_cluster/backup_schedule.go:29-37 | the 480 offsets cover 20:00 to 03:59 one to one |
| BackupSchedule.DailyIsSchedule | pkg/reconcilers/etcd_cluster/backup_schedule.go:14-37 | a daily expression is a schedule in the sense of the run lemmas |
| BackupSchedule.DailyPoints | pkg/reconcilers/etcd_cluster/backup_schedule.go:14-37 | its points are exactly that minute of every day |
| EtcdBackup.StallsIffGap | pkg/reconcilers/etcd_cluster/reconciler.go:356-372 | the watchdog fires iff some wait between signs of progress reaches the interval |
| EtcdBackup.WatchdogFires | pkg/reconcilers/etcd_cluster/reconciler.go:356-372 | the timer that is reset on progress decides exactly that |
| EtcdBackup.ReconcileETCDBackup | pkg/reconcilers/etcd_cluster/reconciler.go:328-391 | what is recorded, and when the call succeeds; failures and stalls record nothing, a failing close changes neither |
| EtcdBackup.BackupRecordedExactly | pkg/reconcilers/etcd_cluster/reconciler.go:354-387 | a pass records a backup if and only if it works and none exists or the answer to the last one has passed; when it reports success |
| EtcdBackup.BackupsExactly | pkg/reconcilers/etcd_cluster/reconciler.go:354-387 | the backups of a run are exactly those working attempts: none skipped, none early |
| EtcdBackup.PointIsServed | pkg/reconcilers/etcd_cluster/reconciler.go:354-387 | once a working pass is checked after a schedule point, there is a backup after that point |
| EtcdBackup.FailureHiddenExactly | pkg/reconcilers/etcd_cluster/reconciler.go:363-364 | a pass hides a failing call if and only if it recorded a backup and only closing the client failed |
| EtcdBackup.FailingCloseReportedExactly | pkg/reconcilers/etcd_cluster/reconciler.go:335-387 | a due attempt whose close fails is an error if and only if client, schedule, snapshot, upload or watchdog failed too |
| EtcdBackup.RunsIgnoreClose | pkg/reconcilers/etcd_cluster/reconciler.go:354-387 | over any run neither reports nor recorded backups depend on whether the client closes |
| EtcdBackup.BackupsAreSpaced | pkg/reconcilers/etcd_cluster/reconciler.go:354-387 | in any run each backup comes after what the schedule in force at it answers to the one before |
| EtcdBackup.SpacedAt | pkg/reconcilers/etcd_cluster/reconciler.go:354-387 | so a point of that schedule lies between them, unless it has no next one |
| EtcdBackup.BackupsBoundedBySchedule | pkg/reconcilers/etcd_cluster/reconciler.go:354-387 | n backups on a schedule are separated by at least n - 1 points, less those after which it has none; no loss if it never ends |
| EtcdBackup.NoPointsBackUpEveryPass | pkg/reconcilers/etcd_cluster/backup_schedule.go:14-27 | on a schedule without points the backups are exactly the passes that can back up |
| EtcdBackup.NextFollowsLast | pkg/reconcilers/etcd_cluster/reconciler.go:374-377 | the recorded times are those of the last backup, the next by the schedule in force then |
| EtcdBackup.OverdueStaysDue | pkg/reconcilers/etcd_cluster/reconciler.go:354-372 | while nothing succeeds the status is unchanged and the backup stays due |
| EtcdBackup.DailyBackupsSpread | pkg/reconcilers/etcd_cluster/reconciler.go:354-387 | with a daily schedule three consecutive backups span more than a day |
| EtcdDefragmentation.FragmentedInIntegers | pkg/reconcilers/etcd_cluster/reconciler.go:473-480 | the ratio test is 5 * unused > size for positive sizes |
| EtcdDefragmentation.ReconcileETCDDefragmentation | pkg/reconcilers/etcd_cluster/reconciler.go:459-496 | the decision does not depend on which fragmented member comes first; a failed attempt is still recorded |
| EtcdDefragmentation.DefragmentedExactly | pkg/reconcilers/etcd_cluster/reconciler.go:467-493 | exactly when a pass attempts it, and the two times it records |
| EtcdDefragmentation.AttemptsCoolDown | pkg/reconcilers/etcd_cluster/reconciler.go:467-493 | consecutive attempts of any run are at least the cooldown apart |
| EtcdDefragmentation.DefragmentationRate | pkg/reconcilers/etcd_cluster/reconciler.go:467-493 | k attempts take at least k - 1 cooldowns |
| EtcdCluster.EtcdClusterReconciler.ReconcileETCDSpaceUsage | pkg/reconcilers/etcd_cluster/reconciler.go:420-457 | usage recorded under partial and total failure |
| EtcdCluster.EtcdClusterReconciler.GetETCDVolumeSize | pkg/reconcilers/etcd_cluster/reconciler.go:302-326 | grown or fixed size; absent where the code would dereference nil |
| EtcdCluster.EtcdClusterReconciler.ReconcilePVCSizes | pkg/reconcilers/etcd_cluster/reconciler.go:244-300 | no claim shrinks, and on success every claim has the size |
| EtcdCluster.EtcdClusterReconciler.ReconcileEtcdCluster | pkg/reconcilers/etcd_cluster/reconciler.go:118-219 | the whole pass: status, claims and exactly which result for every environment |
| EtcdCluster.EtcdClusterReconciler.Maintain | pkg/reconcilers/etcd_cluster/reconciler.go:393-418 | defragmentation, health and backup in order, each only if the one before succeeded |
| EtcdCluster.SizeRecordedExactly | pkg/reconcilers/etcd_cluster/reconciler.go:118-219 | usage and size a stored pass records, fixed or growing, and that no other pass changes them |
| EtcdCluster.UpdateTakesEffect | pkg/reconcilers/etcd_cluster/reconciler.go:302-326 | an accepted fixed size is recorded by the next measuring pass |
| EtcdCluster.PassesGrowExactly | pkg/reconcilers/etcd_cluster/reconciler.go:302-326 | n passes at constant usage grow the volume by exactly min(n, growth steps) increments |
| EtcdCluster.MaintainedExactly | pkg/reconcilers/etcd_cluster/reconciler.go:393-418 | exactly when defragmentation and backup are considered, and what the pass then records |
| EtcdCluster.WaitsExactly | pkg/reconcilers/etcd_cluster/reconciler.go:118-219 | exactly when the pass asks to be called again |
| EtcdCluster.ClaimsRaisedExactly | pkg/reconcilers/etcd_cluster/reconciler.go:244-300 | how far every claim is raised |
| EtcdCluster.CreatedSatisfiesInvariant | api/v1alpha1/webhook/hostedcontrolplane_webhook.go:63-81 | an admitted object without a negative size starts inside the invariant |
| EtcdCluster.StepNeverShrinks | api/v1alpha1/webhook/hostedcontrolplane_webhook.go:148-177 | every accepted update and every pass keeps the invariant, and neither volume nor claims shrink |
| EtcdCluster.RunNeverShrinks | pkg/reconcilers/etcd_cluster/reconciler.go:302-326 | the same over any interleaving |
| EtcdCluster.VolumeNeverShrinksExactly | api/v1alpha1/webhook/hostedcontrolplane_webhook.go:63-81 | over all runs from creation the size never shrinks if and only if the object had no negative fixed size |
| EtcdCluster.SizeIsAlwaysThere | pkg/reconcilers/etcd_cluster/reconciler.go:302-326 | no pass of any run from an admitted object dereferences an absent size |
| EtcdCluster.MaintenanceProjection | pkg/reconcilers/etcd_cluster/reconciler.go:393-418 | a run treats the maintenance status as the run of the passes that reach maintenance |
| EtcdCluster.RepeatedExactlyIfPatchLost | pkg/hostedcontrolplane/controller.go:444-449 | within the cooldown an attempt, failed or not, is repeated if and only if its patch was lost and a member is fragmented |
| EtcdCluster.DefragmentationRateOfRuns | pkg/reconcilers/etcd_cluster/reconciler.go:459-496 | the rate bound holds for the recorded attempts of whole runs of updates and passes, whatever patches are lost |
| EtcdCluster.BackupRateOfRuns | pkg/reconcilers/etcd_cluster/reconciler.go:328-391 | so does the backup bound, for backups on one schedule |
| EtcdCluster.BackupSpacingOfRuns | pkg/reconcilers/etcd_cluster/reconciler.go:328-391 | and the spacing of backups when updates change the schedule |
| NetworkPolicyTargets.CiliumPolicyPeer.ApplyLabel | pkg/util/networkpolicy/target.go:353-373 | appends the pod selector and the prefixed namespace selector, leaving the rest of the peer |
| NetworkPolicyTargets.CiliumPolicyPeer.ApplyToCilium | pkg/util/networkpolicy/target.go:53-411 | every target kind appends its part to the peer and touches nothing else |
| NetworkPolicyTargets.KubernetesTargetMeaning | pkg/util/networkpolicy/target.go:53-401 | whom the Kubernetes form of every kind of target admits, from the endpoint alone |
| NetworkPolicyTargets.CiliumTargetMeaning | pkg/util/networkpolicy/target.go:61-411 | whom the Cilium form of every kind admits |
| NetworkPolicyTargets.BlockContainsExactly | pkg/util/networkpolicy/target.go:89-97 | a CIDR block is the addresses from its base rounded down |
| NetworkPolicyTargets.WithPrefix | pkg/util/networkpolicy/target.go:361-371 | the prefixed labels are exactly the namespace labels |
| NetworkPolicyTargets.LabelCounterexample | pkg/util/networkpolicy/target.go:332-373 | for every such label target a pod that Cilium admits and Kubernetes does not |
| NetworkPolicyTargets.APIServerTargetIncludedAt | pkg/util/networkpolicy/target.go:192-216 | the inclusion holds exactly for API servers at the recorded IP |
| NetworkPolicyTargets.InclusionExactly | pkg/util/networkpolicy/target.go:53-411 | the Kubernetes form admits all the Cilium form admits if and only if a condition on the target's fields holds |
| NetworkPolicyTargets.ComponentTargetMeaning | pkg/util/networkpolicy/target.go:273-307 | Cilium admits the component's pods, Kubernetes every pod of the namespace |
| NetworkPolicyRules.PolicyStore.ReconcileKubernetesNetworkPolicy | pkg/reconcilers/reconciler.go:386-464 | stores the compiled policy whatever order the map is walked in |
| NetworkPolicyRules.PolicyStore.ReconcileCiliumNetworkPolicy | pkg/reconcilers/reconciler.go:469-690 | likewise for Cilium; an invalid policy is stored and reported |
| NetworkPolicyRules.PolicyStore.ReconcileNetworkPolicy | pkg/reconcilers/reconciler.go:322-382 | both stored policies and the result, exactly, for every combination of maps, Cilium and faults; when a nil client is used |
| NetworkPolicyRules.RulesOfMap | pkg/reconcilers/reconciler.go:692-743 | the compiled rules are those of the map's ports and targets and no others |
| NetworkPolicyRules.RulesCount | pkg/reconcilers/reconciler.go:719-743 | and there are as many as the map holds targets |
| NetworkPolicyRules.RulesInPortOrder | pkg/reconcilers/reconciler.go:692-700 | and they come in the order of their ports |
| NetworkPolicyRules.RulesForTargetsInOrder | pkg/reconcilers/reconciler.go:719-743 | with the targets of one port in their own order |
| NetworkPolicyRules.KubernetesDNSRuleMeans | pkg/reconcilers/reconciler.go:386-464 | the added rule admits exactly DNS traffic to the DNS pods |
| NetworkPolicyRules.CiliumDNSRuleMeans | pkg/reconcilers/reconciler.go:469-690 | likewise for Cilium |
| NetworkPolicyRules.KubernetesPolicyMeaning | pkg/reconcilers/reconciler.go:386-464 | a packet is allowed iff the map allows it; absent is unrestricted, empty denies all |
| NetworkPolicyRules.CiliumPolicyMeaning | pkg/reconcilers/reconciler.go:469-690 | the same for Cilium, with ingress without any target unrestricted |
| NetworkPolicyRules.FallbackOnlyWidens | pkg/reconcilers/reconciler.go:322-382 | what Cilium admits the fallback admits, each direction on its own conditions, for TCP and for ports the map does not name |
| NetworkPolicyRules.IngressWidensExactly | pkg/reconcilers/reconciler.go:322-382 | where every target's forms are included, that holds on ingress if and only if the map has a target |
| NetworkPolicyRules.RuleWidensExactly | pkg/reconcilers/reconciler.go:714-717 | per port, target and protocol: if and only if the forms are included and the rule is for every port or TCP, or it admits nobody |
| NetworkPolicyRules.MapWidensExactly | pkg/reconcilers/reconciler.go:719-743 | for any map and protocol: if and only if every peer some target admits under Cilium is admitted by a Kubernetes form for every port or, for TCP, the same port |
| NetworkPolicyRules.EgressWidensExactly | pkg/reconcilers/reconciler.go:322-382 | over all packets restricted egress only widens if and only if targets for every port cover all peers |
| NetworkPolicyTargets.SomebodyAdmitted | pkg/util/networkpolicy/target.go:53-411 | every target but a label target that contradicts itself admits somebody under Cilium |
| NetworkPolicyRules.NoTargetSeparatesBackends | pkg/reconcilers/reconciler.go:469-690 | without a target the two back ends are opposites on ingress |
| AuditWebhookPorts.EgressTargets.SetAuditWebhookPorts | pkg/reconcilers/apiserverresources/apiserverresources.go:1456-1486 | each server's host is added once under its port behind what was there, in any order; one bad server and nothing is added |
| AuditWebhookPorts.WebhooksMeanForCilium | pkg/reconcilers/apiserverresources/apiserverresources.go:1456-1507 | the added targets admit exactly their hosts on their ports, 443 by default and port 0 standing for all, beyond what was admitted |
| AuditWebhookPorts.WebhooksMeanForKubernetes | pkg/reconcilers/apiserverresources/apiserverresources.go:1456-1507 | in the other back end they open exactly their ports to every address |
| Phases.ConditionNamesDiffer | api/v1alpha1/hostedcontrolplane_conditions_consts.go:5-46 | no two phases of either pipeline share a condition |
| Phases.ApplicablePhases | pkg/hostedcontrolplane/controller.go:478-497 | the summary counts every phase but the workload phase |
| Phases.PipelineSetsReached | pkg/hostedcontrolplane/controller.go:828-866 | every phase that ran has the condition of its own outcome, and no other condition changes |
| Phases.PipelineShape | pkg/hostedcontrolplane/controller.go:828-866 | True for a prefix of the phases, at most one False after it |
| Phases.ConditionForExactly | pkg/hostedcontrolplane/controller.go:828-866 | status and reason of a phase's condition for every outcome |
| Phases.LatchingPhases | pkg/hostedcontrolplane/controller.go:759-826 | which phases latch the two status fields |
| Phases.WorkloadOutcomeExactly | pkg/reconcilers/workload/reconciler.go:193-295 | the workload phase passes if and only if all its phases do, and else is the first that does not |
| Phases.HostedControlPlane.ReconcileWorkloadClusterResources | pkg/reconcilers/workload/reconciler.go:123-298 | the nested loop sets the nested pipeline's conditions and reports its first phase that does not pass |
| Phases.HostedControlPlane.RunPhase | pkg/hostedcontrolplane/controller.go:703-826 | one phase sets its own condition and its own latch only |
| Phases.HostedControlPlane.RunPhases | pkg/hostedcontrolplane/controller.go:828-866 | the loop's status and requeue for all outcomes |
| Phases.HostedControlPlane.ReconcileNormal | pkg/hostedcontrolplane/controller.go:512-869 | the whole pass, including the early failures before the phases |
| Phases.SetConditionsLate | pkg/reconcilers/workload/reconciler.go:193-295 | the nested conditions never overwrite outer ones: the two pipelines commute |
| Phases.PassEnds | pkg/hostedcontrolplane/controller.go:828-866 | the pass's status is that after its passing phases plus one failed condition |
| PhaseHistory.Store.Reconcile | pkg/hostedcontrolplane/controller.go:359-458 | the deferred patch stores the pass with its summary, or nothing if it fails |
| PhaseHistory.ConditionHistory | pkg/hostedcontrolplane/controller.go:703-866 | after any history a condition is what was last said about it |
| PhaseHistory.PhaseShowsLastOutcome | pkg/hostedcontrolplane/controller.go:828-866 | every phase's condition shows its outcome in the last stored pass that had one for it, the workload phase's early failure included |
| PhaseHistory.LatchStep | pkg/hostedcontrolplane/controller.go:759-803 | no event resets a latch; exactly which pass first sets each |
| PhaseHistory.LatchesHold | pkg/hostedcontrolplane/controller.go:759-803 | over any history Ready implies initialized and neither is reset |
| PhaseHistory.ReadyHasAReason | pkg/hostedcontrolplane/controller.go:703-803 | a ready object became so in a pass in which every phase up to it passed |
| PhaseHistory.SummarizeEstablishes | pkg/hostedcontrolplane/controller.go:478-497 | after the summary Ready is True iff every condition that counts is |
| PhaseHistory.SummaryExactly | pkg/hostedcontrolplane/controller.go:478-497 | False if some condition that counts is, True if all are, Unknown otherwise |
| PhaseHistory.ReadySummarizes | pkg/hostedcontrolplane/controller.go:460-509 | and stays so over any history |
| PhaseHistory.ReadyMeansThisPass | pkg/hostedcontrolplane/controller.go:460-509 | after a stored pass Ready is True iff every phase before the workload phase passed in that very pass |
| CADefinitions.DefinitionsAreWellFormed | pkg/reconcilers/certificates/reconciler.go:109-140 | the definitions' names do not clash and each is signed by the root or an earlier one |
| CABundle.SecretStore.ReconcileCABundle | pkg/reconcilers/certificates/reconciler.go:494-552 | one bundle's step and result for every state of the two secrets and every failing call |
| CABundle.SecretStore.ReconcileCABundles | pkg/reconcilers/certificates/reconciler.go:468-492 | the loop over the definitions stops at the first error and joins the reasons |
| CABundle.BundleStepExactly | pkg/reconcilers/certificates/reconciler.go:510-549 | a populated CA that differs is published exactly when the calls work, and nothing else is written |
| CABundle.BundleOutcomeExactly | pkg/reconcilers/certificates/reconciler.go:510-549 | exactly when a definition fails or is not ready, and why |
| CABundle.PassFailsExactly | pkg/reconcilers/certificates/reconciler.go:468-492 | a pass fails if and only if a definition does |
| CABundle.PassWaitsExactly | pkg/reconcilers/certificates/reconciler.go:468-492 | otherwise it reports the reasons of those not ready, joined in order |
| CABundle.CaughtUpExactly | pkg/reconcilers/certificates/reconciler.go:468-552 | a bundle is up to date after a pass if and only if it was or its populated CA was reached with working calls |
| CABundle.WorkingPassCatchesUp | pkg/reconcilers/certificates/reconciler.go:468-552 | with populated CAs and working calls one pass publishes every rotation and is done |
| CABundle.StepsDoNotInterfere | pkg/reconcilers/certificates/reconciler.go:109-140 | a step for one definition leaves the others' secrets and outcomes alone |
| CABundle.PassAtDefinition | pkg/reconcilers/certificates/reconciler.go:468-492 | in a pass each reached definition takes its own step, an unreached one none |
| CABundle.BundleHistory | pkg/reconcilers/certificates/reconciler.go:510-549 | over any run the published bundles are the observed certificates without repeats, each chained to the one before |
| CABundle.NoTrustGap | pkg/reconcilers/certificates/reconciler.go:510-549 | consecutive bundles differ and share a certificate |
| CABundle.TrustedIffObserved | pkg/reconcilers/certificates/reconciler.go:510-549 | a certificate is ever trusted if and only if a reconcile observed it |
| CABundle.RerunWritesNothing | pkg/reconcilers/certificates/reconciler.go:521-529 | where every bundle is up to date, nothing is written |
| CABundle.DoneExactly | pkg/reconcilers/certificates/reconciler.go:468-492 | a pass reports nothing to wait for if and only if it observed every CA |
| CABundle.DoneMeansUpToDate | pkg/reconcilers/certificates/reconciler.go:468-552 | and then every bundle's current certificate is the CA's |
| CAChain.Namespace.ReconcileCA | pkg/reconcilers/certificates/reconciler.go:183-219 | certificate, then issuer only if it is ready; objects and result for every failing call |
| CAChain.Namespace.ReconcileCACertificates | pkg/reconcilers/certificates/reconciler.go:144-177 | the root issuer gates the loop over the definitions; reasons joined, errors end the pass |
| CAChain.CAStepExactly | pkg/reconcilers/certificates/reconciler.go:183-219 | what one definition's step applies, for any calls, and that it touches nothing else |
| CAChain.CAFailsExactly | pkg/reconcilers/certificates/reconciler.go:183-219 | exactly when it fails, is done, or waits, and for what |
| CAChain.PassAtCA | pkg/reconcilers/certificates/reconciler.go:158-175 | each definition takes its own step if and only if no earlier one fails |
| CAChain.RootExactly | pkg/reconcilers/certificates/reconciler.go:150-166 | what happens when the root issuer cannot be applied or is not ready |
| CAChain.CAsFailExactly | pkg/reconcilers/certificates/reconciler.go:158-175 | the definitions fail if and only if one does |
| CAChain.CAsWaitExactly | pkg/reconcilers/certificates/reconciler.go:158-175 | otherwise the reasons are reported, joined in order |
| CAChain.DoneForCallsExactly | pkg/reconcilers/certificates/reconciler.go:144-219 | for any calls: done if and only if every call works and everything is ready |
| CAChain.PassKeeps | pkg/reconcilers/certificates/reconciler.go:144-219 | whatever fails, a pass changes no readiness, removes nothing and spoils nothing that is right |
| CAChain.DoneExactly | pkg/reconcilers/certificates/reconciler.go:144-219 | nothing to wait for if and only if every issuer and CA certificate is ready |
| CAChain.CreatedIssuerHasReadyCertificate | pkg/reconcilers/certificates/reconciler.go:183-219 | a pass creates a CA issuer only for a ready certificate |
| CAChain.IssuerWasEarned | pkg/reconcilers/certificates/reconciler.go:144-219 | over any run, an issuer that came to exist was created in a pass with its certificate ready |
| CAChain.WorkingRoundAdvances | pkg/reconcilers/certificates/reconciler.go:144-219 | each round without failing calls brings the chain one step further |
| CAChain.ChainComesUp | pkg/reconcilers/certificates/reconciler.go:144-219 | from any objects the pass after 2 * depth + 1 working rounds reports nothing to wait for |
| CAChain.ControlPlaneComesUp | pkg/reconcilers/certificates/reconciler.go:109-140 | for the control plane's own CAs that is the sixth working pass |
| CAChain.NothingComesUpEarly | pkg/reconcilers/certificates/reconciler.go:144-219 | from nothing, no issuer exists before the one that signs it, and the bound is exact |
| RBAC.WorkloadCluster.ApplyEach | pkg/reconcilers/workload/rbac/reconciler.go:117-142 | apply, or delete what is invalid and note it; any other error ends the loop |
| RBAC.WorkloadCluster.ReconcilePhase | pkg/reconcilers/workload/rbac/reconciler.go:108-226 | the four kinds in order, as one list |
| RBAC.WorkloadCluster.ReconcileRBAC | pkg/reconcilers/workload/rbac/reconciler.go:66-244 | phase by phase, ending at the first with an error or a reason |
| RBAC.ApplyFailsExactly | pkg/reconcilers/workload/rbac/reconciler.go:117-226 | a phase's calls fail if and only if an apply does, or a delete of an object with another role reference |
| RBAC.AppliedExactly | pkg/reconcilers/workload/rbac/reconciler.go:117-226 | every object of a phase is as desired, or deleted if its role reference differs |
| RBAC.PassReportsExactly | pkg/reconcilers/workload/rbac/reconciler.go:108-241 | a pass reports what the first phase that fails or recreates comes to, with its reasons in order |
| RBAC.SameRoleRefIsKept | pkg/reconcilers/workload/rbac/reconciler.go:117-226 | whatever fails, an object with the desired role reference is never deleted |
| RBAC.CleanClusterIsDoneAtOnce | pkg/reconcilers/workload/rbac/reconciler.go:108-241 | without other role references one pass is done and leaves all as desired |
| RBAC.PassIsSafe | pkg/reconcilers/workload/rbac/reconciler.go:108-241 | whatever fails, a pass makes no new conflict and spoils nothing; an empty report means all is as desired |
| RBAC.PassLeavesOthers | pkg/reconcilers/workload/rbac/reconciler.go:108-241 | objects that are not managed stay as they are |
| RBAC.FaultFreePass | pkg/reconcilers/workload/rbac/reconciler.go:108-241 | a pass without failures is done iff no phase holds a conflict, and otherwise clears exactly one phase |
| RBAC.ConvergesExactly | pkg/reconcilers/workload/rbac/reconciler.go:108-241 | the pass after k others is done if and only if k is at least the number of phases that held a conflict |
| RBAC.ConvergesDespiteFaults | pkg/reconcilers/workload/rbac/reconciler.go:108-241 | failing passes in between do not undo progress |
| Secrets.CausesTell | pkg/reconcilers/reconciler.go:897-903 | the test on the causes holds exactly when the type is all that stands in the way |
| Secrets.WaysExactly | pkg/reconcilers/reconciler.go:897-903 | the two ways to succeed, from the existing secret's fields |
| Secrets.RefusedExactly | pkg/reconcilers/reconciler.go:891-903 | exactly what the API server refuses |
| Secrets.SecretClient.ReconcileSecret | pkg/reconcilers/reconciler.go:860-937 | at most two applies; exactly when it succeeds, deletes, or loses the secret |
| Ordering.SortIsCanonical | pkg/reconcilers/reconciler.go:692-700 | sorting by a total order depends only on the multiset |
| Ordering.IterationOrderIsIrrelevant | pkg/reconcilers/reconciler.go:692-743 | any enumeration of a map sorts to the same entries |
| Ordering.SortedEntriesEnumerate | pkg/operator/util/args.go:40-48 | those entries list the map once, keys strictly increasing |
| Args.WarnOverridden | pkg/operator/util/args.go:65-78 | exactly the user's arguments that lose against a different value, each once |
| Args.MergeArgs | pkg/operator/util/args.go:20-55 | the arguments are those of the merged map in key order, however the map is walked |
| Args.MergedEntries | pkg/operator/util/args.go:40-48 | one entry per key of either map, the controller's value winning |
| Args.OptionsExactly | pkg/operator/util/args.go:30-39 | defaults and overrides of prefix and joiner |
| Args.ArgumentsExactly | pkg/operator/util/args.go:49-54 | the argument at every position |
| Args.DecodeExactly | pkg/operator/util/args.go:49-54 | arguments read back as their entries if and only if no key hides an earlier joiner |
| Args.SingleCharacterJoiner | pkg/operator/util/args.go:30-31 | for a one-character joiner that means the key does not contain it |
| Args.ArgumentsReadBackExactly | pkg/operator/util/args.go:20-85 | the same for the two maps and any options |
| Args.StringOrderExactly | pkg/operator/util/args_test.go:85-95 | when two arguments in key order are also in string order, exactly |
| Args.SortedKeysUnsortedArguments | pkg/operator/util/args_test.go:85-95 | a pair of keys for which they are not, whatever the values |
| Checksum.HashMap | pkg/operator/util/checksum.go:23-39 | the digest of a map does not depend on iteration order |
| Checksum.CalculateChecksum | pkg/operator/util/checksum.go:20-53 | the sum over sorted digests; empty without maps |
| Checksum.WrittenInParts | pkg/operator/util/checksum.go:33-37 | entries are written in order, each as key and value |
| Checksum.SumExactly | pkg/operator/util/checksum.go:42-53 | the hash of the digests, sorted and concatenated |
| Checksum.ChecksumIgnoresOrder | pkg/operator/util/checksum.go:20-53 | equal for equal multisets of maps, for any hash |
| Checksum.ChecksumTellsExactly | pkg/operator/util/checksum.go:20-53 | with a hash that does not collide on its inputs, equal if and only if the written streams are the same multiset |
| Checksum.MovedBoundaryIsNotSeen | pkg/operator/util/checksum.go:34-38 | contents that differ in where a key ends are equal for every hash |

## Left out

- I/O and its clients (Kubernetes, cert-manager, etcd, S3, Gateway, Cilium), retries, timeouts, tracing, events: only
  their results are inputs.
- The node rotation loops (`pkg/reconcilers/node_rotation/reconciler.go`): two independent skip-or-patch loops.
- Leaf certificates, their specifications, and the cleanup of orphaned ones: a loop over independent objects.
- Builders of containers, probes, images, kubeconfigs, RBAC rules, config maps and policies' fixed parts: constants.
- The content of PodDisruptionBudgets, VerticalPodAutoscalers, services, deployments and the `deleteResource` paths other than
  those of secrets and policies.
- The text of the Ready condition, the rewriting of condition reasons into identifiers, observed generations and
  transition times.
- Parsing of URLs, CIDRs, versions, IPs and cron expressions, time zones, the FNV hash of the daily schedule: results
  are parameters.
- Interleavings inside one reconcile, and edits by other managers of the same fields.
- Rounding of floating-point numbers in the fragmentation ratio, and fractions of seconds.
- Growth of the usage between passes is arbitrary in `EtcdCluster`, but constant in `EtcdVolume.GrowthIsExact`.
- Args.ArgumentsReadBackExactly: about the list of arguments, not about how the started program parses them.
- NetworkPolicyRules.FallbackOnlyWidens: one direction, on conditions that can be read off the targets; the exact
  conditions, in terms of what the map's other targets cover, are those of the equivalences beside it.
- CAChain.ChainComesUp: assumes that cert-manager takes readiness back from nothing while the chain comes up.
- RBAC.ConvergesExactly: resources are named once each, which the generators do by construction.

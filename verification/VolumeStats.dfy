/** How full the etcd volumes are: one kubelet query per node, joined back to the pods. */
module VolumeStats {
  import opened Common

  const MAX_INT64: nat := 0x7FFF_FFFF_FFFF_FFFF
  const ETCD_DATA := "etcd-data"

  datatype Pod = Pod(namespace: string, name: string, nodeName: string)

  datatype VolumeStat = VolumeStat(name: string, pvcName: Option<string>, usedBytes: Option<nat>)
  datatype PodStat = PodStat(namespace: string, name: string, volumes: seq<VolumeStat>)
  type Summary = seq<PodStat>

  /** The answer of a node's kubelet. */
  datatype Fetched = Stats(summary: Summary) | FetchError(node: string)

  predicate IsEtcdDataVolume(v: VolumeStat) {
    if v.pvcName.Some? then ETCD_DATA + "-" <= v.pvcName.value else v.name == ETCD_DATA
  }

  // ---------------------------------------------------------------- one pod

  predicate Reports(summary: Summary, namespace: string, podName: string, i: int, j: int) {
    && 0 <= i < |summary| && summary[i].namespace == namespace && summary[i].name == podName
    && 0 <= j < |summary[i].volumes|
    && IsEtcdDataVolume(summary[i].volumes[j]) && summary[i].volumes[j].usedBytes.Some?
  }

  predicate Earlier(i: int, j: int, k: int, l: int) {
    i < k || (i == k && j < l)
  }

  function Clamp(used: nat): nat {
    if used <= MAX_INT64 then used else MAX_INT64
  }

  /** The value, or the largest 64-bit number if it is greater. */
  predicate IsClamped(used: nat, usage: nat) {
    usage <= used && usage <= MAX_INT64 && (usage == used || usage == MAX_INT64)
  }

  /** A claim counts by the prefix of its name, an ephemeral volume by its whole name. */
  lemma DataVolumesExactly(v: VolumeStat)
    ensures IsEtcdDataVolume(v) <==>
            match v.pvcName
            case Some(name) => exists rest: string :: name == "etcd-data-" + rest
            case None => v.name == "etcd-data"
  {
    if v.pvcName.Some? {
      var name := v.pvcName.value;
      if "etcd-data-" <= name {
        assert name == "etcd-data-" + name[10..];
      }
      forall rest: string | name == "etcd-data-" + rest
        ensures "etcd-data-" <= name
      {
      }
    }
  }

  /** What is reported first, in document order; zero if nothing is. */
  ghost predicate IsPodUsage(summary: Summary, namespace: string, podName: string, usage: nat) {
    if exists i, j :: Reports(summary, namespace, podName, i, j) then
      exists i, j :: Reports(summary, namespace, podName, i, j)
        && IsClamped(summary[i].volumes[j].usedBytes.value, usage)
        && forall k, l :: Reports(summary, namespace, podName, k, l) ==> !Earlier(k, l, i, j)
    else
      usage == 0
  }

  function FirstVolume(volumes: seq<VolumeStat>): (r: Option<nat>)
    ensures r.Some? ==> r.value <= MAX_INT64
  {
    if volumes == [] then None
    else if IsEtcdDataVolume(volumes[0]) && volumes[0].usedBytes.Some? then Some(Clamp(volumes[0].usedBytes.value))
    else FirstVolume(volumes[1..])
  }

  function PodUsage(summary: Summary, namespace: string, podName: string): (usage: nat)
    ensures usage <= MAX_INT64
  {
    if summary == [] then 0
    else
      var first := if summary[0].namespace == namespace && summary[0].name == podName
                   then FirstVolume(summary[0].volumes) else None;
      if first.Some? then first.value else PodUsage(summary[1..], namespace, podName)
  }

  method ExtractPodVolumeUsage(summary: Summary, namespace: string, podName: string) returns (usage: nat)
    ensures usage == PodUsage(summary, namespace, podName)
    ensures IsPodUsage(summary, namespace, podName, usage)
  {
    assert summary[0..] == summary;
    for i := 0 to |summary|
      invariant PodUsage(summary, namespace, podName) == PodUsage(summary[i..], namespace, podName)
      invariant forall k, l :: k < i ==> !Reports(summary, namespace, podName, k, l)
    {
      var podStats := summary[i];
      assert summary[i..][0] == podStats && summary[i..][1..] == summary[i + 1..];
      if podStats.namespace != namespace || podStats.name != podName {
        continue;
      }
      assert podStats.volumes[0..] == podStats.volumes;
      for j := 0 to |podStats.volumes|
        invariant FirstVolume(podStats.volumes) == FirstVolume(podStats.volumes[j..])
        invariant forall l :: l < j ==> !Reports(summary, namespace, podName, i, l)
      {
        var volStats := podStats.volumes[j];
        assert podStats.volumes[j..][0] == volStats && podStats.volumes[j..][1..] == podStats.volumes[j + 1..];
        if !IsEtcdDataVolume(volStats) || volStats.usedBytes.None? {
          continue;
        }
        assert Reports(summary, namespace, podName, i, j);
        return Clamp(volStats.usedBytes.value);
      }
    }
    return 0;
  }

  // ---------------------------------------------------------------- all pods

  function Uniq(nodes: seq<string>): seq<string> {
    if nodes == [] then []
    else
      var rest := Uniq(nodes[..|nodes| - 1]);
      if nodes[|nodes| - 1] in rest then rest else rest + [nodes[|nodes| - 1]]
  }

  lemma {:induction false} UniqKeepsElements(nodes: seq<string>)
    ensures forall n :: n in Uniq(nodes) <==> n in nodes
    ensures forall i, j :: 0 <= i < j < |Uniq(nodes)| ==> Uniq(nodes)[i] != Uniq(nodes)[j]
  {
    if nodes != [] {
      UniqKeepsElements(nodes[..|nodes| - 1]);
      assert nodes == nodes[..|nodes| - 1] + [nodes[|nodes| - 1]];
    }
  }

  function NodeNames(pods: seq<Pod>): (nodes: seq<string>)
    ensures |nodes| == |pods| && forall i :: 0 <= i < |pods| ==> nodes[i] == pods[i].nodeName
  {
    if pods == [] then [] else [pods[0].nodeName] + NodeNames(pods[1..])
  }

  /** One answer for each node asked. */
  function StatsByNode(nodes: seq<string>, fetch: string -> Fetched): map<string, Fetched> {
    map n | n in nodes :: fetch(n)
  }

  datatype PodResult = Measured(usage: nat) | NodeFailed(node: string) | NoStatsForNode(node: string)

  function ResultFor(pod: Pod, statsByNode: map<string, Fetched>): PodResult {
    if pod.nodeName !in statsByNode then NoStatsForNode(pod.nodeName)
    else
      match statsByNode[pod.nodeName]
      case FetchError(node) => NodeFailed(node)
      case Stats(summary) => Measured(PodUsage(summary, pod.namespace, pod.name))
  }

  function SizeOf(r: PodResult): nat {
    if r.Measured? then r.usage else 0
  }

  datatype Measurement = Measurement(usage: nat, failed: bool)

  function MaxSize(results: seq<PodResult>): nat {
    if results == [] then 0 else Max(SizeOf(results[0]), MaxSize(results[1..]))
  }

  function Results(pods: seq<Pod>, statsByNode: map<string, Fetched>): (r: seq<PodResult>)
    ensures |r| == |pods| && forall i :: 0 <= i < |pods| ==> r[i] == ResultFor(pods[i], statsByNode)
  {
    if pods == [] then [] else [ResultFor(pods[0], statsByNode)] + Results(pods[1..], statsByNode)
  }

  function GetMaxEtcdVolumeUsage(pods: seq<Pod>, fetch: string -> Fetched): Measurement {
    if pods == [] then Measurement(0, false)
    else
      var statsByNode := StatsByNode(Uniq(NodeNames(pods)), fetch);
      var results := Results(pods, statsByNode);
      Measurement(MaxSize(results), exists i :: 0 <= i < |results| && !results[i].Measured?)
  }

  /** The simple form: ask the pod's own node every time. */
  function UsageOf(pod: Pod, fetch: string -> Fetched): nat {
    match fetch(pod.nodeName)
    case FetchError(_) => 0
    case Stats(summary) => PodUsage(summary, pod.namespace, pod.name)
  }

  predicate NodeFails(pod: Pod, fetch: string -> Fetched) {
    fetch(pod.nodeName).FetchError?
  }

  lemma {:induction false} MaxSizeIsMax(results: seq<PodResult>)
    ensures forall i :: 0 <= i < |results| ==> SizeOf(results[i]) <= MaxSize(results)
    ensures results != [] ==> exists i :: 0 <= i < |results| && SizeOf(results[i]) == MaxSize(results)
  {
    if results != [] {
      MaxSizeIsMax(results[1..]);
      if results[1..] != [] && MaxSize(results) != SizeOf(results[0]) {
        var i :| 0 <= i < |results[1..]| && SizeOf(results[1..][i]) == MaxSize(results[1..]);
        assert results[i + 1] == results[1..][i];
      }
      assert forall i :: 0 < i < |results| ==> results[i] == results[1..][i - 1];
    }
  }

  /** The branch for a node without statistics is never taken. */
  lemma NoPodMissesItsNode(pods: seq<Pod>, fetch: string -> Fetched, i: nat)
    requires i < |pods|
    ensures var r := ResultFor(pods[i], StatsByNode(Uniq(NodeNames(pods)), fetch));
            && !r.NoStatsForNode?
            && SizeOf(r) == UsageOf(pods[i], fetch)
            && (!r.Measured? <==> NodeFails(pods[i], fetch))
  {
    var nodes := NodeNames(pods);
    UniqKeepsElements(nodes);
    assert nodes[i] in nodes;
    StatsOfNode(Uniq(nodes), fetch, pods[i]);
  }

  lemma StatsOfNode(nodes: seq<string>, fetch: string -> Fetched, pod: Pod)
    requires pod.nodeName in nodes
    ensures ResultFor(pod, StatsByNode(nodes, fetch)) ==
            match fetch(pod.nodeName)
            case FetchError(node) => NodeFailed(node)
            case Stats(summary) => Measured(PodUsage(summary, pod.namespace, pod.name))
  {
  }

  /** Fetching once per distinct node is like fetching for every pod: the maximum, and failure iff any node failed. */
  lemma OncePerNodeIsEnough(pods: seq<Pod>, fetch: string -> Fetched)
    requires pods != []
    ensures var m := GetMaxEtcdVolumeUsage(pods, fetch);
            && (forall i :: 0 <= i < |pods| ==> UsageOf(pods[i], fetch) <= m.usage)
            && (exists i :: 0 <= i < |pods| && UsageOf(pods[i], fetch) == m.usage)
            && (m.failed <==> exists i :: 0 <= i < |pods| && NodeFails(pods[i], fetch))
  {
    var results := Results(pods, StatsByNode(Uniq(NodeNames(pods)), fetch));
    MaxSizeIsMax(results);
    forall i | 0 <= i < |pods|
      ensures SizeOf(results[i]) == UsageOf(pods[i], fetch)
      ensures !results[i].Measured? <==> NodeFails(pods[i], fetch)
    {
      NoPodMissesItsNode(pods, fetch, i);
    }
  }

  // ---------------------------------------------------------------- recording

  /** The stored usage after a pass; None means the pass fails and leaves it alone. */
  function RecordUsage(previous: int, m: Measurement): Option<int> {
    if m.failed then
      if m.usage == 0 then None else Some(Max(m.usage, previous))
    else Some(m.usage)
  }

  /** Some failure never lowers the stored usage; failure of every node never changes it. */
  lemma FailuresNeverLowerUsage(previous: int, pods: seq<Pod>, fetch: string -> Fetched)
    ensures var m := GetMaxEtcdVolumeUsage(pods, fetch);
            && ((exists i :: 0 <= i < |pods| && NodeFails(pods[i], fetch)) ==>
                  RecordUsage(previous, m).None? || RecordUsage(previous, m).value >= previous)
            && (pods != [] && (forall i :: 0 <= i < |pods| ==> NodeFails(pods[i], fetch)) ==>
                  RecordUsage(previous, m).None?)
  {
    if pods != [] {
      OncePerNodeIsEnough(pods, fetch);
      var m := GetMaxEtcdVolumeUsage(pods, fetch);
      var i :| 0 <= i < |pods| && UsageOf(pods[i], fetch) == m.usage;
      if forall i :: 0 <= i < |pods| ==> NodeFails(pods[i], fetch) {
        assert NodeFails(pods[0], fetch) && UsageOf(pods[i], fetch) == 0;
      }
    }
  }

  /** Pods without a node are not asked about. */
  function Scheduled(pods: seq<Pod>): (r: seq<Pod>)
    ensures forall p :: p in r <==> p in pods && p.nodeName != ""
  {
    if pods == [] then []
    else
      assert pods == [pods[0]] + pods[1..];
      (if pods[0].nodeName != "" then [pods[0]] else []) + Scheduled(pods[1..])
  }

  /**
   * The stored usage drops exactly when every scheduled pod's node answers with less; so it does, to zero, when no pod
   * is scheduled at all.
   */
  lemma UsageDropsExactly(previous: int, pods: seq<Pod>, fetch: string -> Fetched)
    ensures var r := RecordUsage(previous, GetMaxEtcdVolumeUsage(Scheduled(pods), fetch));
            r.Some? && r.value < previous <==>
            && previous > 0
            && forall p :: p in pods && p.nodeName != "" ==> !NodeFails(p, fetch) && UsageOf(p, fetch) < previous
  {
    var scheduled := Scheduled(pods);
    if scheduled == [] {
      assert forall p :: p in pods && p.nodeName != "" ==> p in scheduled;
    } else {
      OncePerNodeIsEnough(scheduled, fetch);
      var m := GetMaxEtcdVolumeUsage(scheduled, fetch);
      var i :| 0 <= i < |scheduled| && UsageOf(scheduled[i], fetch) == m.usage;
      assert scheduled[i] in pods && scheduled[i].nodeName != "";
      if m.failed {
        var j :| 0 <= j < |scheduled| && NodeFails(scheduled[j], fetch);
        assert scheduled[j] in pods && scheduled[j].nodeName != "";
      } else {
        forall p | p in pods && p.nodeName != ""
          ensures !NodeFails(p, fetch) && UsageOf(p, fetch) <= m.usage
        {
          var k :| 0 <= k < |scheduled| && scheduled[k] == p;
        }
      }
    }
  }

  /** The largest usage of a scheduled pod, zero if there is none. */
  ghost predicate Largest(pods: seq<Pod>, fetch: string -> Fetched, usage: nat) {
    && (forall p :: p in pods && p.nodeName != "" ==> UsageOf(p, fetch) <= usage)
    && (usage == 0 || exists p :: p in pods && p.nodeName != "" && UsageOf(p, fetch) == usage)
  }

  ghost predicate SomeNodeFails(pods: seq<Pod>, fetch: string -> Fetched) {
    exists p :: p in pods && p.nodeName != "" && NodeFails(p, fetch)
  }

  lemma LargestIsUnique(pods: seq<Pod>, fetch: string -> Fetched, a: nat, b: nat)
    requires Largest(pods, fetch, a) && Largest(pods, fetch, b)
    ensures a == b
  {
  }

  lemma MeasuresLargest(pods: seq<Pod>, fetch: string -> Fetched)
    ensures Largest(pods, fetch, GetMaxEtcdVolumeUsage(Scheduled(pods), fetch).usage)
  {
    var scheduled := Scheduled(pods);
    var m := GetMaxEtcdVolumeUsage(scheduled, fetch);
    if scheduled != [] {
      OncePerNodeIsEnough(scheduled, fetch);
      var i :| 0 <= i < |scheduled| && UsageOf(scheduled[i], fetch) == m.usage;
      assert scheduled[i] in scheduled;
    }
    forall p | p in pods && p.nodeName != ""
      ensures UsageOf(p, fetch) <= m.usage
    {
      assert p in scheduled;
      var k :| 0 <= k < |scheduled| && scheduled[k] == p;
    }
  }

  lemma MeasuresFailure(pods: seq<Pod>, fetch: string -> Fetched)
    ensures GetMaxEtcdVolumeUsage(Scheduled(pods), fetch).failed <==> SomeNodeFails(pods, fetch)
  {
    var scheduled := Scheduled(pods);
    if scheduled != [] {
      OncePerNodeIsEnough(scheduled, fetch);
    }
    if p :| p in pods && p.nodeName != "" && NodeFails(p, fetch) {
      assert p in scheduled;
      var k :| 0 <= k < |scheduled| && scheduled[k] == p;
      assert NodeFails(scheduled[k], fetch);
    }
    if j :| 0 <= j < |scheduled| && NodeFails(scheduled[j], fetch) {
      assert scheduled[j] in scheduled;
    }
  }

  /**
   * What a pass records, from the nodes' answers for the scheduled pods: the largest usage if all answer, not less than
   * before if some do and report any, and otherwise nothing.
   */
  lemma UsageRecordedExactly(previous: int, pods: seq<Pod>, fetch: string -> Fetched, largest: nat)
    requires Largest(pods, fetch, largest)
    ensures RecordUsage(previous, GetMaxEtcdVolumeUsage(Scheduled(pods), fetch)) ==
            if !SomeNodeFails(pods, fetch) then Some(largest)
            else if largest == 0 then None
            else if previous < largest then Some(largest) else Some(previous)
  {
    var m := GetMaxEtcdVolumeUsage(Scheduled(pods), fetch);
    MeasuresLargest(pods, fetch);
    MeasuresFailure(pods, fetch);
    LargestIsUnique(pods, fetch, largest, m.usage);
  }
}

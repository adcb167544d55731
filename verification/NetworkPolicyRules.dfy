/**
 * The network policy compiler: a map from ports to targets becomes a list of rules for one of
 * two back ends. Packets give both outputs a meaning, and the meaning is that of the map.
 */
module NetworkPolicyRules {
  import opened Common
  import opened Ordering
  import opened NetworkPolicyTargets

  /** Port 0 stands for every port. */
  type TargetMap = map<int, seq<Target>>

  datatype Protocol = TCP | UDP | SCTP
  datatype Packet = Packet(port: int, protocol: Protocol)

  datatype PortSpec = PortSpec(port: int, protocol: Option<Protocol>)
  datatype Rule<P> = Rule(ports: seq<PortSpec>, peers: seq<P>)

  type KubernetesRule = Rule<KubernetesPeer>
  type CiliumRule = Rule<CiliumPeer>

  // ---------------------------------------------------------------- compilation

  function RuleFor<P>(port: int, peer: P): Rule<P> {
    Rule(if port != 0 then [PortSpec(port, None)] else [], [peer])
  }

  function RulesForTargets<P>(port: int, targets: seq<Target>, createPeer: Target -> P): seq<Rule<P>> {
    if targets == [] then []
    else [RuleFor(port, createPeer(targets[0]))] + RulesForTargets(port, targets[1..], createPeer)
  }

  function RulesForEntries<P>(entries: seq<(int, seq<Target>)>, createPeer: Target -> P): seq<Rule<P>> {
    if entries == [] then []
    else RulesForTargets(entries[0].0, entries[0].1, createPeer) + RulesForEntries(entries[1..], createPeer)
  }

  /** `pairs` is the map in the order the runtime iterates over it. */
  function ConvertToRules<P>(pairs: seq<(int, seq<Target>)>, createPeer: Target -> P): seq<Rule<P>> {
    RulesForEntries(Sort(pairs, ByKey(IntBefore)), createPeer)
  }

  const KUBERNETES_DNS_RULE: KubernetesRule :=
    Rule([PortSpec(53, Some(UDP))],
         [KubernetesPeer(Some(map["k8s-app" := "kube-dns"]), Some(map[METADATA_NAME := "kube-system"]), None)])

  const CILIUM_DNS_RULE: CiliumRule :=
    Rule([PortSpec(53, Some(UDP))],
         [CiliumPeer([map["k8s-app" := "kube-dns", POD_NAMESPACE := "kube-system"]], [], [], [])])

  function KubernetesPeerOf(t: Target): KubernetesPeer {
    ApplyToKubernetes(t, NO_PEER)
  }

  /** Ingress rules have no field for names, so the peer's names are dropped. */
  function CiliumIngressPeerOf(t: Target): CiliumPeer {
    CiliumPart(t).(fqdns := [])
  }

  predicate IngressTargetsOnly(m: TargetMap) {
    forall p, t :: p in m && t in m[p] ==> t.IsIngressTarget()
  }

  /** A direction is present when its policy type is set. */
  datatype KubernetesSpec = KubernetesSpec(
    podSelector: Labels,
    ingress: Option<seq<KubernetesRule>>,
    egress: Option<seq<KubernetesRule>>)

  datatype CiliumSpec = CiliumSpec(endpointSelector: Labels, ingress: seq<CiliumRule>, egress: seq<CiliumRule>)

  ghost function Entries(m: TargetMap): seq<(int, seq<Target>)> {
    SortedEntries(m, IntBefore)
  }

  ghost function KubernetesSpecOf(labels: Labels, ingress: Option<TargetMap>, egress: Option<TargetMap>)
    : KubernetesSpec
  {
    KubernetesSpec(
      labels,
      if ingress.Some? then Some(RulesForEntries(Entries(ingress.value), KubernetesPeerOf)) else None,
      if egress.Some? then Some(RulesForEntries(Entries(egress.value), KubernetesPeerOf) + [KUBERNETES_DNS_RULE])
      else None)
  }

  ghost function CiliumSpecOf(labels: Labels, ingress: Option<TargetMap>, egress: Option<TargetMap>): CiliumSpec {
    CiliumSpec(
      labels,
      if ingress.Some? then RulesForEntries(Entries(ingress.value), CiliumIngressPeerOf) else [],
      if egress.Some? then RulesForEntries(Entries(egress.value), CiliumPart) + [CILIUM_DNS_RULE] else [])
  }

  // ---------------------------------------------------------------- reconciliation

  datatype Result = Applied | ApiError | NilDereference

  /** Which API calls fail, and whether Cilium marks the stored policy invalid. */
  datatype Faults = Faults(kubernetesDelete: bool, ciliumDelete: bool, write: bool, policyInvalid: bool)

  /** The two policy objects of one workload. */
  class PolicyStore {
    var kubernetes: Option<KubernetesSpec>
    var cilium: Option<CiliumSpec>

    method ReconcileKubernetesNetworkPolicy(
      labels: Labels, ingress: Option<TargetMap>, egress: Option<TargetMap>, faults: Faults)
      returns (r: Result)
      modifies this`kubernetes
      ensures r == if faults.write then ApiError else Applied
      ensures kubernetes == if faults.write then old(kubernetes) else Some(KubernetesSpecOf(labels, ingress, egress))
    {
      IntBeforeIsTotal();
      var spec := KubernetesSpec(labels, None, None);
      if ingress.Some? {
        var pairs := ToPairs(ingress.value);
        IterationOrderIsIrrelevant(pairs, ingress.value, IntBefore);
        spec := spec.(ingress := Some(ConvertToRules(pairs, KubernetesPeerOf)));
      }
      if egress.Some? {
        var pairs := ToPairs(egress.value);
        IterationOrderIsIrrelevant(pairs, egress.value, IntBefore);
        var egressRules := ConvertToRules(pairs, KubernetesPeerOf);
        egressRules := egressRules + [KUBERNETES_DNS_RULE];
        spec := spec.(egress := Some(egressRules));
      }
      if faults.write {
        return ApiError;
      }
      kubernetes := Some(spec);
      return Applied;
    }

    method ReconcileCiliumNetworkPolicy(
      labels: Labels, ingress: Option<TargetMap>, egress: Option<TargetMap>, faults: Faults)
      returns (r: Result)
      modifies this`cilium
      ensures r == if faults.write || faults.policyInvalid then ApiError else Applied
      ensures cilium == if faults.write then old(cilium) else Some(CiliumSpecOf(labels, ingress, egress))
    {
      IntBeforeIsTotal();
      var spec := CiliumSpec(labels, [], []);
      if ingress.Some? {
        var pairs := ToPairs(ingress.value);
        IterationOrderIsIrrelevant(pairs, ingress.value, IntBefore);
        spec := spec.(ingress := ConvertToRules(pairs, CiliumIngressPeerOf));
      }
      if egress.Some? {
        var pairs := ToPairs(egress.value);
        IterationOrderIsIrrelevant(pairs, egress.value, IntBefore);
        var egressRules := ConvertToRules(pairs, CiliumPart);
        egressRules := egressRules + [CILIUM_DNS_RULE];
        spec := spec.(egress := egressRules);
      }
      if faults.write {
        return ApiError;
      }
      cilium := Some(spec);
      return if faults.policyInvalid then ApiError else Applied;
    }

    /** With no target map at all and no Cilium client, the code calls Delete on a nil interface. */
    method ReconcileNetworkPolicy(
      ciliumInstalled: bool, labels: Labels, ingress: Option<TargetMap>, egress: Option<TargetMap>, faults: Faults)
      returns (r: Result)
      modifies this
      ensures r == NilDereference <==>
                ingress.None? && egress.None? && !ciliumInstalled && !faults.kubernetesDelete
      ensures r == ApiError <==>
                var deleted := ingress.None? && egress.None?;
                || ((deleted || ciliumInstalled) && faults.kubernetesDelete)
                || (deleted && ciliumInstalled && faults.ciliumDelete)
                || (!deleted && (faults.write || (ciliumInstalled && faults.policyInvalid)))
      ensures kubernetes ==
                if (ingress.None? && egress.None?) || ciliumInstalled then
                  if faults.kubernetesDelete then old(kubernetes) else None
                else if faults.write then old(kubernetes)
                else Some(KubernetesSpecOf(labels, ingress, egress))
      ensures cilium ==
                if !ciliumInstalled || faults.kubernetesDelete then old(cilium)
                else if ingress.None? && egress.None? then
                  if faults.ciliumDelete then old(cilium) else None
                else if faults.write then old(cilium)
                else Some(CiliumSpecOf(labels, ingress, egress))
    {
      var deleteResource := ingress.None? && egress.None?;
      if deleteResource || ciliumInstalled {
        if faults.kubernetesDelete {
          return ApiError;
        }
        kubernetes := None;
        if deleteResource {
          if !ciliumInstalled {
            return NilDereference;
          }
          if faults.ciliumDelete {
            return ApiError;
          }
          cilium := None;
          return Applied;
        }
      }
      if ciliumInstalled {
        r := ReconcileCiliumNetworkPolicy(labels, ingress, egress, faults);
      } else {
        r := ReconcileKubernetesNetworkPolicy(labels, ingress, egress, faults);
      }
    }
  }

  // ---------------------------------------------------------------- meaning

  /** A Kubernetes port without a protocol means TCP. */
  predicate KubernetesPortMatches(spec: PortSpec, packet: Packet) {
    spec.port == packet.port && packet.protocol == (if spec.protocol.Some? then spec.protocol.value else TCP)
  }

  /** A Cilium port without a protocol means any. */
  predicate CiliumPortMatches(spec: PortSpec, packet: Packet) {
    spec.port == packet.port && (spec.protocol.Some? ==> packet.protocol == spec.protocol.value)
  }

  predicate KubernetesRuleAllows(rule: KubernetesRule, own: string, packet: Packet, e: Endpoint) {
    && (rule.ports == [] || exists p :: p in rule.ports && KubernetesPortMatches(p, packet))
    && (rule.peers == [] || exists q :: q in rule.peers && KubernetesPeerAccepts(q, own, e))
  }

  predicate CiliumRuleAllows(rule: CiliumRule, own: string, packet: Packet, e: Endpoint) {
    && (rule.ports == [] || exists p :: p in rule.ports && CiliumPortMatches(p, packet))
    && (rule.peers == [] || exists q :: q in rule.peers && CiliumPeerAccepts(q, own, e))
  }

  /** A direction without its policy type is unrestricted; with it, only the rules allow. */
  predicate KubernetesAllows(rules: Option<seq<KubernetesRule>>, own: string, packet: Packet, e: Endpoint) {
    rules.None? || exists r :: r in rules.value && KubernetesRuleAllows(r, own, packet, e)
  }

  /** Cilium does not enforce a direction whose rule list is omitted or empty. */
  predicate CiliumAllows(rules: seq<CiliumRule>, own: string, packet: Packet, e: Endpoint) {
    rules == [] || exists r :: r in rules && CiliumRuleAllows(r, own, packet, e)
  }

  /** The meaning of the map for Kubernetes: some target under port 0 or the packet's TCP port admits the peer. */
  ghost predicate MapAllowsKubernetes(m: TargetMap, own: string, packet: Packet, e: Endpoint) {
    exists p, t :: p in m && t in m[p]
      && (p == 0 || (p == packet.port && packet.protocol == TCP)) && KubernetesAccepts(t, own, e)
  }

  ghost predicate MapAllowsCilium(m: TargetMap, own: string, packet: Packet, e: Endpoint) {
    exists p, t :: p in m && t in m[p] && (p == 0 || p == packet.port) && CiliumAccepts(t, own, e)
  }

  ghost predicate HasTarget(m: TargetMap) {
    exists p :: p in m && m[p] != []
  }

  /** Exactly the rules of the entries' targets, each under its own port. */
  lemma {:induction false} RulesForTargetsAre<P>(port: int, targets: seq<Target>, createPeer: Target -> P, r: Rule<P>)
    ensures r in RulesForTargets(port, targets, createPeer)
            <==> exists t :: t in targets && r == RuleFor(port, createPeer(t))
  {
    if targets != [] {
      RulesForTargetsAre(port, targets[1..], createPeer, r);
      assert targets == [targets[0]] + targets[1..];
    }
  }

  lemma {:induction false} RulesForEntriesAre<P>(entries: seq<(int, seq<Target>)>, createPeer: Target -> P, r: Rule<P>)
    ensures r in RulesForEntries(entries, createPeer)
            <==> exists e :: e in entries && r in RulesForTargets(e.0, e.1, createPeer)
  {
    if entries != [] {
      RulesForEntriesAre(entries[1..], createPeer, r);
      assert entries == [entries[0]] + entries[1..];
    }
  }

  /** The rules compiled from a map are those of its ports and targets, and nothing else. */
  lemma RulesOfMap<P>(m: TargetMap, createPeer: Target -> P, r: Rule<P>)
    ensures r in RulesForEntries(Entries(m), createPeer)
            <==> exists p, t :: p in m && t in m[p]
                   && r == RuleFor(p, createPeer(t))
  {
    IntBeforeIsTotal();
    SortedEntriesEnumerate(m, IntBefore);
    var entries := Entries(m);
    RulesForEntriesAre(entries, createPeer, r);
    forall e | e in entries {
      RulesForTargetsAre(e.0, e.1, createPeer, r);
    }
    if p, t :| p in m && t in m[p] && r == RuleFor(p, createPeer(t)) {
      assert (p, m[p]) in entries;
    }
  }

  /** The places in the map that hold a target. */
  ghost function Slots(m: TargetMap): set<(int, int)> {
    set p, i | p in m && 0 <= i < |m[p]| :: (p, i)
  }

  ghost function SlotsAt(p: int, n: nat): set<(int, int)>
    ensures |SlotsAt(p, n)| == n
    ensures forall s :: s in SlotsAt(p, n) <==> s.0 == p && 0 <= s.1 < n
  {
    if n == 0 then {} else SlotsAt(p, n - 1) + {(p, n - 1)}
  }

  ghost function SlotsOf(entries: seq<(int, seq<Target>)>): set<(int, int)> {
    if entries == [] then {} else SlotsAt(entries[0].0, |entries[0].1|) + SlotsOf(entries[1..])
  }

  lemma {:induction false} RulesForTargetsCount<P>(port: int, targets: seq<Target>, createPeer: Target -> P)
    ensures |RulesForTargets(port, targets, createPeer)| == |targets|
  {
    if targets != [] {
      RulesForTargetsCount(port, targets[1..], createPeer);
    }
  }

  lemma {:induction false} SlotIsOfEntry(entries: seq<(int, seq<Target>)>, s: (int, int))
    ensures s in SlotsOf(entries) <==> exists e :: e in entries && s.0 == e.0 && 0 <= s.1 < |e.1|
  {
    if entries != [] {
      SlotIsOfEntry(entries[1..], s);
      assert entries == [entries[0]] + entries[1..];
    }
  }

  lemma {:induction false} RulesForEntriesCount<P>(entries: seq<(int, seq<Target>)>, createPeer: Target -> P)
    requires forall i, j :: 0 <= i < j < |entries| ==> entries[i].0 != entries[j].0
    ensures |RulesForEntries(entries, createPeer)| == |SlotsOf(entries)|
  {
    if entries != [] {
      var first := SlotsAt(entries[0].0, |entries[0].1|);
      RulesForTargetsCount(entries[0].0, entries[0].1, createPeer);
      RulesForEntriesCount(entries[1..], createPeer);
      forall s | s in SlotsOf(entries[1..])
        ensures s !in first
      {
        SlotIsOfEntry(entries[1..], s);
      }
      assert first !! SlotsOf(entries[1..]);
    }
  }

  /** As many rules are compiled as the map holds targets. */
  lemma RulesCount<P>(m: TargetMap, createPeer: Target -> P)
    ensures |RulesForEntries(Entries(m), createPeer)| == |Slots(m)|
  {
    IntBeforeIsTotal();
    SortedEntriesEnumerate(m, IntBefore);
    var entries := Entries(m);
    RulesForEntriesCount(entries, createPeer);
    forall s: (int, int)
      ensures s in SlotsOf(entries) <==> s in Slots(m)
    {
      SlotIsOfEntry(entries, s);
      if s in Slots(m) {
        assert (s.0, m[s.0]) in entries;
      }
    }
    assert SlotsOf(entries) == Slots(m);
  }

  /** The port a rule is for, zero for every port. */
  function PortOf<P>(r: Rule<P>): int {
    if r.ports == [] then 0 else r.ports[0].port
  }

  lemma {:induction false} RulesForTargetsInOrder<P>(
    port: int, targets: seq<Target>, createPeer: Target -> P, i: nat)
    requires i < |targets|
    ensures var rules := RulesForTargets(port, targets, createPeer);
            |rules| == |targets| && rules[i].peers == [createPeer(targets[i])] && PortOf(rules[i]) == port
  {
    RulesForTargetsCount(port, targets[1..], createPeer);
    if i > 0 {
      RulesForTargetsInOrder(port, targets[1..], createPeer, i - 1);
    }
  }

  ghost predicate InPortOrder<P>(rules: seq<Rule<P>>, low: int) {
    && (forall r :: r in rules ==> low <= PortOf(r))
    && (forall i, j :: 0 <= i < j < |rules| ==> PortOf(rules[i]) <= PortOf(rules[j]))
  }

  lemma OnePortFirst<P>(first: seq<Rule<P>>, rest: seq<Rule<P>>, port: int)
    requires (forall r :: r in first ==> PortOf(r) == port) && InPortOrder(rest, port)
    ensures InPortOrder(first + rest, port)
  {
    var rules := first + rest;
    forall i, j | 0 <= i < j < |rules|
      ensures PortOf(rules[i]) <= PortOf(rules[j])
    {
      assert rules[i] == if i < |first| then first[i] else rest[i - |first|];
      assert rules[j] == if j < |first| then first[j] else rest[j - |first|];
      assert j >= |first| ==> rest[j - |first|] in rest;
    }
  }

  lemma {:induction false} EntriesInPortOrder<P>(entries: seq<(int, seq<Target>)>, createPeer: Target -> P, low: int)
    requires forall i, j :: 0 <= i < j < |entries| ==> entries[i].0 < entries[j].0
    requires forall i :: 0 <= i < |entries| ==> low <= entries[i].0
    ensures InPortOrder(RulesForEntries(entries, createPeer), low)
    decreases |entries|
  {
    if entries != [] {
      var port, targets := entries[0].0, entries[0].1;
      var first, rest := RulesForTargets(port, targets, createPeer), RulesForEntries(entries[1..], createPeer);
      RulesForTargetsCount(port, targets, createPeer);
      forall r | r in first
        ensures PortOf(r) == port
      {
        var i :| 0 <= i < |first| && first[i] == r;
        RulesForTargetsInOrder(port, targets, createPeer, i);
      }
      EntriesInPortOrder(entries[1..], createPeer, port);
      OnePortFirst(first, rest, port);
    }
  }

  /** The rules come in the order of their ports; those of one port in that of its targets, `RulesForTargetsInOrder`. */
  lemma RulesInPortOrder<P>(m: TargetMap, createPeer: Target -> P)
    ensures var rules := RulesForEntries(Entries(m), createPeer);
            forall i, j :: 0 <= i < j < |rules| ==> PortOf(rules[i]) <= PortOf(rules[j])
  {
    IntBeforeIsTotal();
    SortedEntriesEnumerate(m, IntBefore);
    var entries := Entries(m);
    EntriesInPortOrder(entries, createPeer, if entries == [] then 0 else entries[0].0);
  }

  lemma OriginOfRule<P>(m: TargetMap, createPeer: Target -> P, r: Rule<P>) returns (p: int, t: Target)
    requires r in RulesForEntries(Entries(m), createPeer)
    ensures p in m && t in m[p] && r == RuleFor(p, createPeer(t))
  {
    RulesOfMap(m, createPeer, r);
    p, t :| p in m && t in m[p] && r == RuleFor(p, createPeer(t));
  }

  lemma KubernetesRuleMeans(p: int, t: Target, own: string, packet: Packet, e: Endpoint)
    ensures KubernetesRuleAllows(RuleFor(p, KubernetesPeerOf(t)), own, packet, e)
            <==> (p == 0 || (p == packet.port && packet.protocol == TCP)) && KubernetesAccepts(t, own, e)
  {
    var r := RuleFor(p, KubernetesPeerOf(t));
    assert KubernetesPeerOf(t) in r.peers;
    if p != 0 {
      assert PortSpec(p, None) in r.ports;
    }
  }

  lemma CiliumRuleMeans(p: int, peer: CiliumPeer, own: string, packet: Packet, e: Endpoint)
    ensures CiliumRuleAllows(RuleFor(p, peer), own, packet, e)
            <==> (p == 0 || p == packet.port) && CiliumPeerAccepts(peer, own, e)
  {
    var r := RuleFor(p, peer);
    assert peer in r.peers;
    if p != 0 {
      assert PortSpec(p, None) in r.ports;
    }
  }

  lemma KubernetesRulesMean(m: TargetMap, own: string, packet: Packet, e: Endpoint)
    ensures KubernetesAllows(Some(RulesForEntries(Entries(m), KubernetesPeerOf)), own, packet, e)
            <==> MapAllowsKubernetes(m, own, packet, e)
  {
    var rules := RulesForEntries(Entries(m), KubernetesPeerOf);
    if KubernetesAllows(Some(rules), own, packet, e) {
      var r :| r in rules && KubernetesRuleAllows(r, own, packet, e);
      var p, t := OriginOfRule(m, KubernetesPeerOf, r);
      KubernetesRuleMeans(p, t, own, packet, e);
    }
    if MapAllowsKubernetes(m, own, packet, e) {
      var p, t :| p in m && t in m[p] &&
        (p == 0 || (p == packet.port && packet.protocol == TCP)) && KubernetesAccepts(t, own, e);
      KubernetesRuleMeans(p, t, own, packet, e);
      RulesOfMap(m, KubernetesPeerOf, RuleFor(p, KubernetesPeerOf(t)));
    }
  }

  ghost predicate SameCiliumPeers(m: TargetMap, createPeer: Target -> CiliumPeer) {
    forall p, t :: p in m && t in m[p] ==> createPeer(t) == CiliumPart(t)
  }

  lemma IngressPeerIsWhole(m: TargetMap)
    requires IngressTargetsOnly(m)
    ensures SameCiliumPeers(m, CiliumIngressPeerOf)
  {
    forall p, t | p in m && t in m[p]
      ensures CiliumIngressPeerOf(t) == CiliumPart(t)
    {
      assert t.IsIngressTarget();
    }
  }

  lemma CiliumRulesSound(
    m: TargetMap, createPeer: Target -> CiliumPeer, r: CiliumRule, own: string, packet: Packet, e: Endpoint)
    requires SameCiliumPeers(m, createPeer)
    requires r in RulesForEntries(Entries(m), createPeer) && CiliumRuleAllows(r, own, packet, e)
    ensures MapAllowsCilium(m, own, packet, e)
  {
    var p, t := OriginOfRule(m, createPeer, r);
    CiliumRuleMeans(p, CiliumPart(t), own, packet, e);
    assert CiliumAccepts(t, own, e);
  }

  lemma CiliumRulesComplete(
    m: TargetMap, createPeer: Target -> CiliumPeer, own: string, packet: Packet, e: Endpoint)
    returns (r: CiliumRule)
    requires SameCiliumPeers(m, createPeer) && MapAllowsCilium(m, own, packet, e)
    ensures r in RulesForEntries(Entries(m), createPeer) && CiliumRuleAllows(r, own, packet, e)
  {
    var p, t :| p in m && t in m[p] && (p == 0 || p == packet.port) && CiliumAccepts(t, own, e);
    r := RuleFor(p, createPeer(t));
    CiliumRuleMeans(p, createPeer(t), own, packet, e);
    RulesOfMap(m, createPeer, r);
  }

  lemma NoRulesIffNoTarget<P>(m: TargetMap, createPeer: Target -> P)
    ensures RulesForEntries(Entries(m), createPeer) == [] <==> !HasTarget(m)
  {
    var rules := RulesForEntries(Entries(m), createPeer);
    if rules != [] {
      RulesOfMap(m, createPeer, rules[0]);
    }
    if p :| p in m && m[p] != [] {
      RulesOfMap(m, createPeer, RuleFor(p, createPeer(m[p][0])));
    }
  }

  /** Traffic a workload sends to the DNS pods is always allowed once egress is restricted. */
  predicate IsDNSTraffic(packet: Packet, e: Endpoint) {
    && packet == Packet(53, UDP)
    && e.placement.InPod? && e.placement.namespace == "kube-system"
    && "k8s-app" in e.placement.podLabels && e.placement.podLabels["k8s-app"] == "kube-dns"
  }

  lemma KubernetesDNSRuleMeans(own: string, packet: Packet, e: Endpoint)
    ensures KubernetesRuleAllows(KUBERNETES_DNS_RULE, own, packet, e) <==> IsDNSTraffic(packet, e)
  {
    var r := KUBERNETES_DNS_RULE;
    var port, peer := PortSpec(53, Some(UDP)), r.peers[0];
    assert r.ports == [port] && r.peers == [peer];
    assert port in r.ports && peer in r.peers;
    assert "k8s-app" in peer.podSelector.value && METADATA_NAME in peer.namespaceSelector.value;
    assert packet == Packet(53, UDP) <==> KubernetesPortMatches(port, packet);
  }

  lemma CiliumDNSRuleMeans(own: string, packet: Packet, e: Endpoint)
    ensures CiliumRuleAllows(CILIUM_DNS_RULE, own, packet, e) <==> IsDNSTraffic(packet, e)
  {
    var r := CILIUM_DNS_RULE;
    var port, peer := PortSpec(53, Some(UDP)), r.peers[0];
    var s := peer.endpoints[0];
    assert r.ports == [port] && r.peers == [peer] && peer.endpoints == [s];
    assert port in r.ports && peer in r.peers && s in peer.endpoints;
    assert packet == Packet(53, UDP) <==> CiliumPortMatches(port, packet);
    assert POD_NAMESPACE[0] == NAMESPACE_LABELS_PREFIX[0] == 'i' && "k8s-app"[0] == 'k';
    assert forall k :: k in s <==> k == "k8s-app" || k == POD_NAMESPACE;
    assert POD_NAMESPACE in s && "k8s-app" in s && NamesNamespace(s);
    if e.placement.InPod? {
      assert CiliumLabel(e.placement, "k8s-app") == Lookup(e.placement.podLabels, "k8s-app");
      assert CiliumLabel(e.placement, POD_NAMESPACE) == Some(e.placement.namespace);
    }
  }

  /** The Kubernetes policy means what the two maps say: nil is unrestricted, an empty map denies everything. */
  lemma KubernetesPolicyMeaning(
    labels: Labels, ingress: Option<TargetMap>, egress: Option<TargetMap>, own: string, packet: Packet, e: Endpoint)
    ensures var spec := KubernetesSpecOf(labels, ingress, egress);
            && spec.podSelector == labels
            && (KubernetesAllows(spec.ingress, own, packet, e)
                <==> ingress.None? || MapAllowsKubernetes(ingress.value, own, packet, e))
            && (KubernetesAllows(spec.egress, own, packet, e)
                <==> || egress.None? || MapAllowsKubernetes(egress.value, own, packet, e)
                     || IsDNSTraffic(packet, e))
  {
    if ingress.Some? {
      KubernetesRulesMean(ingress.value, own, packet, e);
    }
    if egress.Some? {
      KubernetesRulesMean(egress.value, own, packet, e);
      KubernetesDNSRuleMeans(own, packet, e);
      var rules := RulesForEntries(Entries(egress.value), KubernetesPeerOf);
      assert KUBERNETES_DNS_RULE in rules + [KUBERNETES_DNS_RULE];
      assert forall r :: r in rules ==> r in rules + [KUBERNETES_DNS_RULE];
    }
  }

  /** The Cilium policy means the same, except that an ingress map without any target leaves ingress unrestricted. */
  lemma CiliumPolicyMeaning(
    labels: Labels, ingress: Option<TargetMap>, egress: Option<TargetMap>, own: string, packet: Packet, e: Endpoint)
    requires ingress.Some? ==> IngressTargetsOnly(ingress.value)
    ensures var spec := CiliumSpecOf(labels, ingress, egress);
            && spec.endpointSelector == labels
            && (CiliumAllows(spec.ingress, own, packet, e)
                <==> || ingress.None? || !HasTarget(ingress.value)
                     || MapAllowsCilium(ingress.value, own, packet, e))
            && (CiliumAllows(spec.egress, own, packet, e)
                <==> || egress.None? || MapAllowsCilium(egress.value, own, packet, e)
                     || IsDNSTraffic(packet, e))
  {
    if ingress.Some? {
      var m := ingress.value;
      IngressPeerIsWhole(m);
      NoRulesIffNoTarget(m, CiliumIngressPeerOf);
      if r :| r in RulesForEntries(Entries(m), CiliumIngressPeerOf) && CiliumRuleAllows(r, own, packet, e) {
        CiliumRulesSound(m, CiliumIngressPeerOf, r, own, packet, e);
      }
      if MapAllowsCilium(m, own, packet, e) {
        var _ := CiliumRulesComplete(m, CiliumIngressPeerOf, own, packet, e);
      }
    }
    if egress.Some? {
      CiliumEgressMeaning(egress.value, own, packet, e);
    }
  }

  lemma CiliumEgressMeaning(m: TargetMap, own: string, packet: Packet, e: Endpoint)
    ensures CiliumAllows(RulesForEntries(Entries(m), CiliumPart) + [CILIUM_DNS_RULE], own, packet, e)
            <==> MapAllowsCilium(m, own, packet, e) || IsDNSTraffic(packet, e)
  {
    var rules := RulesForEntries(Entries(m), CiliumPart);
    CiliumDNSRuleMeans(own, packet, e);
    assert CILIUM_DNS_RULE in rules + [CILIUM_DNS_RULE];
    if r :| r in rules && CiliumRuleAllows(r, own, packet, e) {
      CiliumRulesSound(m, CiliumPart, r, own, packet, e);
    }
    if MapAllowsCilium(m, own, packet, e) {
      var r := CiliumRulesComplete(m, CiliumPart, own, packet, e);
      assert r in rules + [CILIUM_DNS_RULE];
    }
  }

  // ---------------------------------------------------------------- one back end against the other

  ghost predicate AllIncluded(m: TargetMap) {
    forall p, t :: p in m && t in m[p] ==> IncludesCilium(t)
  }

  /** No rule of the map treats the packet's protocol differently in the two back ends. */
  predicate SameProtocols(m: TargetMap, packet: Packet) {
    packet.protocol == TCP || packet.port == 0 || packet.port !in m
  }

  /** What the Cilium form of a rule allows, its Kubernetes form allows, for packets of one protocol. */
  ghost predicate RuleWidens(p: int, t: Target, protocol: Protocol) {
    forall own: string, port: int, e: Endpoint ::
      CiliumRuleAllows(RuleFor(p, CiliumPart(t)), own, Packet(port, protocol), e) ==>
        KubernetesRuleAllows(RuleFor(p, KubernetesPeerOf(t)), own, Packet(port, protocol), e)
  }

  lemma RuleFormsMean(p: int, t: Target, own: string, packet: Packet, e: Endpoint)
    ensures CiliumRuleAllows(RuleFor(p, CiliumPart(t)), own, packet, e)
            <==> (p == 0 || p == packet.port) && CiliumAccepts(t, own, e)
    ensures KubernetesRuleAllows(RuleFor(p, KubernetesPeerOf(t)), own, packet, e)
            <==> (p == 0 || (p == packet.port && packet.protocol == TCP)) && KubernetesAccepts(t, own, e)
  {
    KubernetesRuleMeans(p, t, own, packet, e);
    CiliumRuleMeans(p, CiliumPart(t), own, packet, e);
  }

  lemma RuleSeparates(p: int, t: Target, protocol: Protocol, own: string, e: Endpoint)
    requires CiliumAccepts(t, own, e)
    requires !KubernetesAccepts(t, own, e) || (p != 0 && protocol != TCP)
    ensures !RuleWidens(p, t, protocol)
  {
    var port := p;
    RuleFormsMean(p, t, own, Packet(port, protocol), e);
    assert CiliumRuleAllows(RuleFor(p, CiliumPart(t)), own, Packet(port, protocol), e);
  }

  /**
   * For one port, target and protocol the fallback to Kubernetes only widens if and only if the target's forms are
   * included and the rule is for every port or the protocol is TCP; or the rule allows nothing at all.
   */
  lemma RuleWidensExactly(p: int, t: Target, protocol: Protocol)
    ensures RuleWidens(p, t, protocol) <==>
            AdmitsNobody(t) || (IncludesCilium(t) && (p == 0 || protocol == TCP))
  {
    if AdmitsNobody(t) || (IncludesCilium(t) && (p == 0 || protocol == TCP)) {
      forall own: string, port: int, e: Endpoint |
        CiliumRuleAllows(RuleFor(p, CiliumPart(t)), own, Packet(port, protocol), e)
        ensures KubernetesRuleAllows(RuleFor(p, KubernetesPeerOf(t)), own, Packet(port, protocol), e)
      {
        RuleFormsMean(p, t, own, Packet(port, protocol), e);
        NobodyIsAdmitted(t, own, e);
        IncludedAt(t, own, e);
      }
    } else if IncludesCilium(t) {
      var own, e := SomebodyAdmitted(t);
      RuleSeparates(p, t, protocol, own, e);
    } else {
      var own, e := SeparatingEndpoint(t);
      RuleSeparates(p, t, protocol, own, e);
    }
  }

  // ---------------------------------------------------------------- whole maps

  /** What the map allows in its Cilium form it allows in its Kubernetes form, for packets of one protocol. */
  ghost predicate MapWidens(m: TargetMap, protocol: Protocol) {
    forall own: string, port: int, e: Endpoint ::
      MapAllowsCilium(m, own, Packet(port, protocol), e) ==> MapAllowsKubernetes(m, own, Packet(port, protocol), e)
  }

  ghost predicate AdmittedUnder(m: TargetMap, p: int, own: string, e: Endpoint) {
    p in m && exists t :: t in m[p] && KubernetesAccepts(t, own, e)
  }

  /** The Kubernetes form admits the peer by some target for every port or, for TCP, by one for the same port. */
  ghost predicate Covers(m: TargetMap, p: int, protocol: Protocol, own: string, e: Endpoint) {
    AdmittedUnder(m, 0, own, e) || (protocol == TCP && AdmittedUnder(m, p, own, e))
  }

  ghost predicate AllCovered(m: TargetMap, protocol: Protocol) {
    forall p, t, own: string, e: Endpoint ::
      p in m && t in m[p] && CiliumAccepts(t, own, e) ==> Covers(m, p, protocol, own, e)
  }

  lemma UnusedPort(ports: set<int>) returns (port: int)
    ensures port > 0 && forall p :: p in ports ==> p < port
    decreases |ports|
  {
    port := 1;
    if p :| p in ports {
      var rest := UnusedPort(ports - {p});
      port := Max(rest, p + 1);
      assert forall q :: q in ports ==> q == p || q in ports - {p};
    }
  }

  lemma CoveredPeerIsAllowed(m: TargetMap, own: string, packet: Packet, e: Endpoint)
    requires AllCovered(m, packet.protocol) && MapAllowsCilium(m, own, packet, e)
    ensures MapAllowsKubernetes(m, own, packet, e)
  {
    var p, t :| p in m && t in m[p] && (p == 0 || p == packet.port) && CiliumAccepts(t, own, e);
    assert Covers(m, p, packet.protocol, own, e);
    var q := if AdmittedUnder(m, 0, own, e) then 0 else p;
    assert AdmittedUnder(m, q, own, e);
  }

  lemma AllowedIsAdmitted(m: TargetMap, own: string, packet: Packet, e: Endpoint)
    requires MapAllowsKubernetes(m, own, packet, e)
    ensures AdmittedUnder(m, 0, own, e) || (packet.protocol == TCP && AdmittedUnder(m, packet.port, own, e))
  {
    var p, t :| p in m && t in m[p]
      && (p == 0 || (p == packet.port && packet.protocol == TCP)) && KubernetesAccepts(t, own, e);
    assert AdmittedUnder(m, p, own, e);
  }

  lemma AllowedPeerIsCovered(m: TargetMap, protocol: Protocol, p: int, t: Target, own: string, e: Endpoint)
    requires MapWidens(m, protocol) && p in m && t in m[p] && CiliumAccepts(t, own, e)
    ensures Covers(m, p, protocol, own, e)
  {
    var port := p;
    if p == 0 {
      port := UnusedPort(m.Keys);
    }
    var packet := Packet(port, protocol);
    assert MapAllowsCilium(m, own, packet, e);
    assert MapAllowsKubernetes(m, own, packet, e);
    AllowedIsAdmitted(m, own, packet, e);
  }

  /**
   * For any map and protocol the fallback to Kubernetes only widens if and only if every peer that some target admits
   * under Cilium is admitted by some Kubernetes form for every port or, for TCP, for the same port.
   */
  lemma MapWidensExactly(m: TargetMap, protocol: Protocol)
    ensures MapWidens(m, protocol) <==> AllCovered(m, protocol)
  {
    if AllCovered(m, protocol) {
      forall own: string, port: int, e: Endpoint | MapAllowsCilium(m, own, Packet(port, protocol), e)
        ensures MapAllowsKubernetes(m, own, Packet(port, protocol), e)
      {
        CoveredPeerIsAllowed(m, own, Packet(port, protocol), e);
      }
    }
    if MapWidens(m, protocol) {
      forall p, t, own: string, e: Endpoint | p in m && t in m[p] && CiliumAccepts(t, own, e)
        ensures Covers(m, p, protocol, own, e)
      {
        AllowedPeerIsCovered(m, protocol, p, t, own, e);
      }
    }
  }

  ghost predicate EgressWidens(labels: Labels, m: TargetMap) {
    forall own: string, packet: Packet, e: Endpoint ::
      CiliumAllows(CiliumSpecOf(labels, None, Some(m)).egress, own, packet, e) ==>
        KubernetesAllows(KubernetesSpecOf(labels, None, Some(m)).egress, own, packet, e)
  }

  lemma EgressMeans(labels: Labels, m: TargetMap, own: string, packet: Packet, e: Endpoint)
    ensures CiliumAllows(CiliumSpecOf(labels, None, Some(m)).egress, own, packet, e)
            <==> MapAllowsCilium(m, own, packet, e) || IsDNSTraffic(packet, e)
    ensures KubernetesAllows(KubernetesSpecOf(labels, None, Some(m)).egress, own, packet, e)
            <==> MapAllowsKubernetes(m, own, packet, e) || IsDNSTraffic(packet, e)
  {
    CiliumPolicyMeaning(labels, None, Some(m), own, packet, e);
    KubernetesPolicyMeaning(labels, None, Some(m), own, packet, e);
  }

  /** Over all packets, restricted egress only widens if and only if targets for every port cover all peers. */
  lemma EgressWidensExactly(labels: Labels, m: TargetMap)
    ensures EgressWidens(labels, m) <==> AllCovered(m, SCTP)
  {
    if EgressWidens(labels, m) {
      forall own: string, port: int, e: Endpoint | MapAllowsCilium(m, own, Packet(port, SCTP), e)
        ensures MapAllowsKubernetes(m, own, Packet(port, SCTP), e)
      {
        EgressMeans(labels, m, own, Packet(port, SCTP), e);
      }
      MapWidensExactly(m, SCTP);
    }
    if AllCovered(m, SCTP) {
      forall own: string, packet: Packet, e: Endpoint |
        CiliumAllows(CiliumSpecOf(labels, None, Some(m)).egress, own, packet, e)
        ensures KubernetesAllows(KubernetesSpecOf(labels, None, Some(m)).egress, own, packet, e)
      {
        EgressMeans(labels, m, own, packet, e);
        CoveredForEveryProtocol(m, packet.protocol);
        if MapAllowsCilium(m, own, packet, e) {
          CoveredPeerIsAllowed(m, own, packet, e);
        }
      }
    }
  }

  lemma CoveredForEveryProtocol(m: TargetMap, protocol: Protocol)
    requires AllCovered(m, SCTP)
    ensures AllCovered(m, protocol)
  {
    forall p, t, own: string, e: Endpoint | p in m && t in m[p] && CiliumAccepts(t, own, e)
      ensures Covers(m, p, protocol, own, e)
    {
      assert Covers(m, p, SCTP, own, e);
    }
  }

  lemma MapInclusion(m: TargetMap, own: string, packet: Packet, e: Endpoint)
    requires AllIncluded(m) && SameProtocols(m, packet) && MapAllowsCilium(m, own, packet, e)
    ensures MapAllowsKubernetes(m, own, packet, e)
  {
    var p, t :| p in m && t in m[p] && (p == 0 || p == packet.port) && CiliumAccepts(t, own, e);
    InclusionExactly(t);
    assert Included(t);
  }

  /** Falling back from Cilium to Kubernetes only widens, each direction on its own conditions. */
  lemma FallbackOnlyWidens(
    labels: Labels, ingress: Option<TargetMap>, egress: Option<TargetMap>, own: string, packet: Packet, e: Endpoint)
    ensures var k, c := KubernetesSpecOf(labels, ingress, egress), CiliumSpecOf(labels, ingress, egress);
            && ((egress.Some? ==> AllIncluded(egress.value) && SameProtocols(egress.value, packet)) ==>
                  CiliumAllows(c.egress, own, packet, e) ==> KubernetesAllows(k.egress, own, packet, e))
            && ((ingress.Some? ==>
                   && IngressTargetsOnly(ingress.value) && HasTarget(ingress.value)
                   && AllIncluded(ingress.value) && SameProtocols(ingress.value, packet)) ==>
                  CiliumAllows(c.ingress, own, packet, e) ==> KubernetesAllows(k.ingress, own, packet, e))
  {
    KubernetesPolicyMeaning(labels, ingress, egress, own, packet, e);
    if egress.Some? && AllIncluded(egress.value) && SameProtocols(egress.value, packet) {
      CiliumEgressMeaning(egress.value, own, packet, e);
      if MapAllowsCilium(egress.value, own, packet, e) {
        MapInclusion(egress.value, own, packet, e);
      }
    }
    if ingress.Some? && IngressTargetsOnly(ingress.value)
       && AllIncluded(ingress.value) && SameProtocols(ingress.value, packet)
    {
      CiliumPolicyMeaning(labels, ingress, None, own, packet, e);
      if MapAllowsCilium(ingress.value, own, packet, e) {
        MapInclusion(ingress.value, own, packet, e);
      }
    }
  }

  ghost predicate IngressWidens(labels: Labels, m: TargetMap) {
    forall own: string, packet: Packet, e: Endpoint ::
      SameProtocols(m, packet) && CiliumAllows(CiliumSpecOf(labels, Some(m), None).ingress, own, packet, e) ==>
        KubernetesAllows(KubernetesSpecOf(labels, Some(m), None).ingress, own, packet, e)
  }

  /** Where every target's forms are included, restricted ingress only widens if and only if it has a target. */
  lemma IngressWidensExactly(labels: Labels, m: TargetMap)
    requires IngressTargetsOnly(m) && AllIncluded(m)
    ensures IngressWidens(labels, m) <==> HasTarget(m)
  {
    if HasTarget(m) {
      forall own: string, packet: Packet, e: Endpoint |
        SameProtocols(m, packet) && CiliumAllows(CiliumSpecOf(labels, Some(m), None).ingress, own, packet, e)
        ensures KubernetesAllows(KubernetesSpecOf(labels, Some(m), None).ingress, own, packet, e)
      {
        FallbackOnlyWidens(labels, Some(m), None, own, packet, e);
      }
    } else {
      var packet, e := Packet(0, TCP), Endpoint(0, Outside, false, {});
      NoTargetSeparatesBackends(labels, m, "", packet, e);
    }
  }

  /** Without a target the two back ends are opposites on ingress: Cilium admits everything, Kubernetes nothing. */
  lemma NoTargetSeparatesBackends(labels: Labels, m: TargetMap, own: string, packet: Packet, e: Endpoint)
    requires !HasTarget(m)
    ensures CiliumAllows(CiliumSpecOf(labels, Some(m), None).ingress, own, packet, e)
    ensures !KubernetesAllows(KubernetesSpecOf(labels, Some(m), None).ingress, own, packet, e)
  {
    KubernetesPolicyMeaning(labels, Some(m), None, own, packet, e);
    CiliumPolicyMeaning(labels, Some(m), None, own, packet, e);
  }
}

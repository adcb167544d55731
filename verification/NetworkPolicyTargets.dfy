/**
 * The peers a network policy can name, their Kubernetes and Cilium forms, and what each form admits.
 * An endpoint is anything with an IPv4 address: a pod, a node, or a host outside the cluster.
 */
module NetworkPolicyTargets {
  import opened Common

  const METADATA_NAME := "kubernetes.io/metadata.name"
  const POD_NAMESPACE := "io.kubernetes.pod.namespace"
  const NAMESPACE_LABELS_PREFIX := "io.cilium.k8s.namespace.labels."
  const CLUSTER_NAME := "cluster.x-k8s.io/cluster-name"
  const COMPONENT := "app.kubernetes.io/component"

  // ---------------------------------------------------------------- addresses

  type IPv4 = x: int | 0 <= x < 0x1_0000_0000
  type PrefixLength = b: int | 0 <= b <= 32

  function Pow2(n: nat): (p: nat)
    ensures p >= 1
  {
    if n == 0 then 1 else 2 * Pow2(n - 1)
  }

  datatype Cidr = Cidr(base: IPv4, bits: PrefixLength) {
    predicate Contains(ip: IPv4) {
      ip / Pow2(32 - bits) == base / Pow2(32 - bits)
    }
  }

  const EVERYWHERE := Cidr(0, 0)

  lemma EverywhereContainsAll(ip: IPv4)
    ensures EVERYWHERE.Contains(ip)
  {
    assert Pow2(8) == 256;
    assert Pow2(16) == 0x1_0000;
    assert Pow2(24) == 0x100_0000;
    assert Pow2(32) == 0x1_0000_0000;
  }

  lemma HostBlockContainsOnlyItself(ip: IPv4, other: IPv4)
    ensures Cidr(ip, 32).Contains(other) <==> ip == other
  {
    assert Pow2(0) == 1;
  }

  /** A block is the 2^(32 - bits) addresses from the base rounded down. */
  lemma BlockContainsExactly(cidr: Cidr, ip: IPv4)
    ensures var size := Pow2(32 - cidr.bits);
            cidr.Contains(ip) <==> cidr.base - cidr.base % size <= ip < cidr.base - cidr.base % size + size
  {
    var size := Pow2(32 - cidr.bits);
    var q := cidr.base / size;
    QuotientIs(ip, size, q);
    assert cidr.base == q * size + cidr.base % size;
  }

  lemma QuotientIs(x: int, size: int, q: int)
    requires size > 0
    ensures x / size == q <==> q * size <= x < q * size + size
  {
    var r := x / size;
    assert x == r * size + x % size;
    if r < q {
      MulMonotone(r + 1, q, size);
      assert (r + 1) * size == r * size + size;
    } else if q < r {
      MulMonotone(q + 1, r, size);
      assert (q + 1) * size == q * size + size;
    }
  }

  lemma MulMonotone(x: int, y: int, b: int)
    requires x <= y && b >= 0
    ensures x * b <= y * b
  {
  }

  // ---------------------------------------------------------------- endpoints

  datatype Placement =
    | InPod(podLabels: Labels, namespace: string, otherNamespaceLabels: Labels)
    | OnNode
    | Outside

  /** The labels of the pod's namespace; the API server always sets the name label. */
  function NamespaceLabels(p: Placement): Labels
    requires p.InPod?
  {
    p.otherNamespaceLabels[METADATA_NAME := p.namespace]
  }

  datatype Endpoint = Endpoint(ip: IPv4, placement: Placement, apiServer: bool, names: set<string>)

  // ---------------------------------------------------------------- Kubernetes peers

  datatype KubernetesPeer = KubernetesPeer(
    podSelector: Option<Labels>,
    namespaceSelector: Option<Labels>,
    ipBlock: Option<Cidr>)

  const NO_PEER := KubernetesPeer(None, None, None)

  /** What a NetworkPolicyPeer admits in a policy of namespace `own`; a peer with no field set admits nothing. */
  predicate KubernetesPeerAccepts(peer: KubernetesPeer, own: string, e: Endpoint) {
    if peer.ipBlock.Some? then
      peer.ipBlock.value.Contains(e.ip)
    else
      && e.placement.InPod?
      && (peer.podSelector.Some? || peer.namespaceSelector.Some?)
      && (peer.podSelector.Some? ==> Selects(peer.podSelector.value, e.placement.podLabels))
      && (if peer.namespaceSelector.Some? then
            Selects(peer.namespaceSelector.value, NamespaceLabels(e.placement))
          else
            e.placement.namespace == own)
  }

  // ---------------------------------------------------------------- Cilium peers

  datatype Entity = EntityCluster | EntityWorld | EntityKubeAPIServer

  datatype CiliumPeer = CiliumPeer(
    endpoints: seq<Labels>,
    cidr: seq<Cidr>,
    fqdns: seq<string>,
    identities: seq<Entity>)

  const EMPTY_CILIUM_PEER := CiliumPeer([], [], [], [])

  /** The label Cilium derives for a pod: its namespace, the namespace's labels under a prefix, else its own. */
  function CiliumLabel(p: Placement, key: string): Option<string>
    requires p.InPod?
  {
    if key == POD_NAMESPACE then Some(p.namespace)
    else if NAMESPACE_LABELS_PREFIX <= key then
      Lookup(NamespaceLabels(p), key[|NAMESPACE_LABELS_PREFIX|..])
    else Lookup(p.podLabels, key)
  }

  /** A selector that says something about the namespace is not confined to the policy's own one. */
  predicate NamesNamespace(selector: Labels) {
    exists k :: k in selector && (k == POD_NAMESPACE || NAMESPACE_LABELS_PREFIX <= k)
  }

  predicate EndpointSelectorAccepts(selector: Labels, own: string, e: Endpoint) {
    && e.placement.InPod?
    && (forall k :: k in selector ==> CiliumLabel(e.placement, k) == Some(selector[k]))
    && (NamesNamespace(selector) || e.placement.namespace == own)
  }

  predicate EntityAccepts(entity: Entity, e: Endpoint) {
    match entity
    case EntityCluster => !e.placement.Outside?
    case EntityWorld => e.placement.Outside?
    case EntityKubeAPIServer => e.apiServer
  }

  /** A Cilium rule with no peer at all is a wildcard; CIDRs and names only reach endpoints Cilium does not manage. */
  predicate CiliumPeerAccepts(peer: CiliumPeer, own: string, e: Endpoint) {
    || peer == EMPTY_CILIUM_PEER
    || (exists s :: s in peer.endpoints && EndpointSelectorAccepts(s, own, e))
    || (exists c :: c in peer.cidr && e.placement.Outside? && c.Contains(e.ip))
    || (exists n :: n in peer.fqdns && e.placement.Outside? && n in e.names)
    || (exists i :: i in peer.identities && EntityAccepts(i, e))
  }

  // ---------------------------------------------------------------- targets

  datatype ClusterRef = ClusterRef(name: string, namespace: string)

  datatype Target =
    | DNS(hostname: string)
    | CIDRBlock(cidr: Cidr)
    | WholeCluster
    | World
    | APIServer(legacyIP: IPv4)
    | InClusterAPIServer
    | Component(cluster: ClusterRef, component: string)
    | Label(podLabels: Option<Labels>, namespaceLabels: Option<Labels>)
    | HCPController(controllerNamespace: string)
  {
    /** The kinds that implement the ingress interface. */
    predicate IsIngressTarget() {
      !DNS? && !WholeCluster?
    }
  }

  function ControlPlaneLabels(cluster: ClusterRef, component: string): Labels {
    var labels := map[CLUSTER_NAME := cluster.name];
    if component != "" then labels[COMPONENT := component] else labels
  }

  /** The pod selector is set only when there are no pod labels, exactly as the code has it. */
  function LabelToKubernetes(podLabels: Option<Labels>, namespaceLabels: Option<Labels>, peer: KubernetesPeer)
    : KubernetesPeer
  {
    var withPods := if podLabels.None? then peer.(podSelector := Some(map[])) else peer;
    if namespaceLabels.Some? then withPods.(namespaceSelector := namespaceLabels) else withPods
  }

  function ApplyToKubernetes(t: Target, peer: KubernetesPeer): KubernetesPeer {
    match t
    case DNS(_) => peer.(ipBlock := Some(EVERYWHERE))
    case CIDRBlock(cidr) => peer.(ipBlock := Some(cidr))
    case WholeCluster => peer.(ipBlock := Some(EVERYWHERE))
    case World => peer.(ipBlock := Some(EVERYWHERE))
    case APIServer(ip) => peer.(ipBlock := Some(Cidr(ip, 32)))
    case InClusterAPIServer => peer.(ipBlock := Some(EVERYWHERE))
    case Component(cluster, component) =>
      LabelToKubernetes(Some(ControlPlaneLabels(cluster, component)),
                        Some(map[METADATA_NAME := cluster.namespace]), peer)
    case Label(podLabels, namespaceLabels) => LabelToKubernetes(podLabels, namespaceLabels, peer)
    case HCPController(namespace) => LabelToKubernetes(None, Some(map[METADATA_NAME := namespace]), peer)
  }

  /** Namespace labels as Cilium sees them on a pod. */
  function WithPrefix(labels: Labels): (r: Labels)
    ensures forall k :: NAMESPACE_LABELS_PREFIX + k in r <==> k in labels
    ensures forall k :: k in labels ==> r[NAMESPACE_LABELS_PREFIX + k] == labels[k]
    ensures forall q :: q in r ==> NAMESPACE_LABELS_PREFIX <= q
  {
    var keys := set k | k in labels :: NAMESPACE_LABELS_PREFIX + k;
    assert forall k :: (NAMESPACE_LABELS_PREFIX + k)[|NAMESPACE_LABELS_PREFIX|..] == k;
    map q | q in keys :: labels[q[|NAMESPACE_LABELS_PREFIX|..]]
  }

  function LabelSelectors(podLabels: Option<Labels>, namespaceLabels: Option<Labels>): seq<Labels> {
    (if podLabels.Some? then [podLabels.value] else []) +
    (if namespaceLabels.Some? then [WithPrefix(namespaceLabels.value)] else [])
  }

  /** What a target adds to a Cilium peer. */
  function CiliumPart(t: Target): CiliumPeer {
    match t
    case DNS(hostname) => CiliumPeer([], [], [hostname], [])
    case CIDRBlock(cidr) => CiliumPeer([], [cidr], [], [])
    case WholeCluster => CiliumPeer([], [], [], [EntityCluster])
    case World => CiliumPeer([], [], [], [EntityWorld])
    case APIServer(_) => CiliumPeer([], [], [], [EntityKubeAPIServer])
    case InClusterAPIServer => CiliumPeer([], [], [], [EntityKubeAPIServer])
    case Component(cluster, component) =>
      CiliumPeer([ControlPlaneLabels(cluster, component)[POD_NAMESPACE := cluster.namespace]], [], [], [])
    case Label(podLabels, namespaceLabels) => CiliumPeer(LabelSelectors(podLabels, namespaceLabels), [], [], [])
    case HCPController(namespace) =>
      CiliumPeer(LabelSelectors(None, Some(map[METADATA_NAME := namespace])), [], [], [])
  }

  function Merge(a: CiliumPeer, b: CiliumPeer): CiliumPeer {
    CiliumPeer(a.endpoints + b.endpoints, a.cidr + b.cidr, a.fqdns + b.fqdns, a.identities + b.identities)
  }

  /** The peer the targets append to. */
  class CiliumPolicyPeer {
    var Endpoints: seq<Labels>
    var CIDR: seq<Cidr>
    var FQDNs: seq<string>
    var Identities: seq<Entity>

    function View(): CiliumPeer
      reads this
    {
      CiliumPeer(Endpoints, CIDR, FQDNs, Identities)
    }

    constructor ()
      ensures View() == EMPTY_CILIUM_PEER
    {
      Endpoints, CIDR, FQDNs, Identities := [], [], [], [];
    }

    method ApplyLabel(podLabels: Option<Labels>, namespaceLabels: Option<Labels>)
      modifies this
      ensures View() == Merge(old(View()), CiliumPart(Label(podLabels, namespaceLabels)))
    {
      if podLabels.Some? {
        Endpoints := Endpoints + [podLabels.value];
      }
      if namespaceLabels.Some? {
        Endpoints := Endpoints + [WithPrefix(namespaceLabels.value)];
      }
    }

    method ApplyToCilium(t: Target)
      modifies this
      ensures View() == Merge(old(View()), CiliumPart(t))
      ensures Endpoints == old(Endpoints) + CiliumPart(t).endpoints && CIDR == old(CIDR) + CiliumPart(t).cidr
      ensures FQDNs == old(FQDNs) + CiliumPart(t).fqdns && Identities == old(Identities) + CiliumPart(t).identities
    {
      match t
      case DNS(hostname) => FQDNs := FQDNs + [hostname];
      case CIDRBlock(cidr) => CIDR := CIDR + [cidr];
      case WholeCluster => Identities := Identities + [EntityCluster];
      case World => Identities := Identities + [EntityWorld];
      case APIServer(_) => Identities := Identities + [EntityKubeAPIServer];
      case InClusterAPIServer => Identities := Identities + [EntityKubeAPIServer];
      case Component(cluster, component) =>
        var labels := ControlPlaneLabels(cluster, component);
        labels := labels[POD_NAMESPACE := cluster.namespace];
        Endpoints := Endpoints + [labels];
      case Label(podLabels, namespaceLabels) => ApplyLabel(podLabels, namespaceLabels);
      case HCPController(namespace) => ApplyLabel(None, Some(map[METADATA_NAME := namespace]));
    }
  }

  predicate KubernetesAccepts(t: Target, own: string, e: Endpoint) {
    KubernetesPeerAccepts(ApplyToKubernetes(t, NO_PEER), own, e)
  }

  predicate CiliumAccepts(t: Target, own: string, e: Endpoint) {
    CiliumPeerAccepts(CiliumPart(t), own, e)
  }

  // ---------------------------------------------------------------- how the two forms relate

  /** Everything the Cilium form of `t` admits, the Kubernetes form admits too. */
  ghost predicate Included(t: Target) {
    forall own: string, e: Endpoint :: CiliumAccepts(t, own, e) ==> KubernetesAccepts(t, own, e)
  }

  /** Pod labels that ask for two different namespaces at once; no pod carries them. */
  predicate SelectsNoPod(podLabels: Labels) {
    && POD_NAMESPACE in podLabels
    && NAMESPACE_LABELS_PREFIX + METADATA_NAME in podLabels
    && podLabels[POD_NAMESPACE] != podLabels[NAMESPACE_LABELS_PREFIX + METADATA_NAME]
  }

  /** The value namespace label `key` must have for a pod to match `podLabels`, if it is determined. */
  function ForcedNamespaceLabel(podLabels: Labels, key: string): Option<string> {
    if key == METADATA_NAME && POD_NAMESPACE in podLabels then Some(podLabels[POD_NAMESPACE])
    else Lookup(podLabels, NAMESPACE_LABELS_PREFIX + key)
  }

  /** The condition, read off the target's fields alone, under which the forms are included. */
  predicate IncludesCilium(t: Target) {
    match t
    case APIServer(_) => false
    case Label(None, None) => false
    case Label(None, Some(_)) => true
    case Label(Some(p), None) => SelectsNoPod(p)
    case Label(Some(p), Some(n)) =>
      SelectsNoPod(p) || forall k :: k in n ==> ForcedNamespaceLabel(p, k) == Some(n[k])
    case _ => true
  }

  lemma ReservedKeysDiffer(key: string)
    ensures NAMESPACE_LABELS_PREFIX + key != POD_NAMESPACE
    ensures (NAMESPACE_LABELS_PREFIX + key)[|NAMESPACE_LABELS_PREFIX|..] == key
  {
    assert (NAMESPACE_LABELS_PREFIX + key)[3] == 'c' && POD_NAMESPACE[3] == 'k';
  }

  lemma PrefixedLabelOfPod(p: Placement, key: string)
    requires p.InPod?
    ensures CiliumLabel(p, NAMESPACE_LABELS_PREFIX + key) == Lookup(NamespaceLabels(p), key)
  {
    ReservedKeysDiffer(key);
    assert NAMESPACE_LABELS_PREFIX <= NAMESPACE_LABELS_PREFIX + key;
  }

  /** Selecting prefixed labels is selecting the namespace. */
  lemma PrefixedSelectorSelectsNamespace(n: Labels, p: Placement)
    requires p.InPod?
    ensures (forall q :: q in WithPrefix(n) ==> CiliumLabel(p, q) == Some(WithPrefix(n)[q]))
            <==> Selects(n, NamespaceLabels(p))
  {
    forall k
      ensures CiliumLabel(p, NAMESPACE_LABELS_PREFIX + k) == Lookup(NamespaceLabels(p), k)
    {
      PrefixedLabelOfPod(p, k);
    }
    if forall q :: q in WithPrefix(n) ==> CiliumLabel(p, q) == Some(WithPrefix(n)[q]) {
      forall k | k in n
        ensures k in NamespaceLabels(p) && NamespaceLabels(p)[k] == n[k]
      {
        assert NAMESPACE_LABELS_PREFIX + k in WithPrefix(n);
      }
    }
    if Selects(n, NamespaceLabels(p)) {
      forall q | q in WithPrefix(n)
        ensures CiliumLabel(p, q) == Some(WithPrefix(n)[q])
      {
        var k := q[|NAMESPACE_LABELS_PREFIX|..];
        assert q == NAMESPACE_LABELS_PREFIX + k;
        assert k in n;
      }
    }
  }

  lemma NamespaceSelectorIncluded(n: Labels, own: string, e: Endpoint)
    requires EndpointSelectorAccepts(WithPrefix(n), own, e)
    ensures Selects(n, NamespaceLabels(e.placement))
  {
    PrefixedSelectorSelectsNamespace(n, e.placement);
  }

  /** A pod that matches `podLabels` has the namespace labels they force. */
  lemma MatchingPodHasForcedLabel(podLabels: Labels, own: string, e: Endpoint, key: string)
    requires EndpointSelectorAccepts(podLabels, own, e)
    requires ForcedNamespaceLabel(podLabels, key).Some?
    ensures Lookup(NamespaceLabels(e.placement), key) == ForcedNamespaceLabel(podLabels, key)
  {
    if !(key == METADATA_NAME && POD_NAMESPACE in podLabels) {
      PrefixedLabelOfPod(e.placement, key);
    }
  }

  lemma ContradictoryLabelsMatchNothing(podLabels: Labels, own: string, e: Endpoint)
    requires SelectsNoPod(podLabels)
    ensures !EndpointSelectorAccepts(podLabels, own, e)
  {
    if e.placement.InPod? {
      PrefixedLabelOfPod(e.placement, METADATA_NAME);
    }
  }

  /** A pod matching `podLabels`, in namespace `fallback` unless the labels force another one. */
  function PodFor(podLabels: Labels, fallback: string): Endpoint {
    var namespace := ForcedNamespaceLabel(podLabels, METADATA_NAME);
    var keys := set q | q in podLabels && NAMESPACE_LABELS_PREFIX <= q :: q[|NAMESPACE_LABELS_PREFIX|..];
    var others :=
      map k | k in keys && NAMESPACE_LABELS_PREFIX + k in podLabels :: podLabels[NAMESPACE_LABELS_PREFIX + k];
    Endpoint(0, InPod(podLabels, if namespace.Some? then namespace.value else fallback, others), false, {})
  }

  lemma PodForMatches(podLabels: Labels, fallback: string)
    requires !SelectsNoPod(podLabels)
    ensures var e := PodFor(podLabels, fallback);
            && EndpointSelectorAccepts(podLabels, e.placement.namespace, e)
            && forall k :: k != METADATA_NAME ==>
                 Lookup(NamespaceLabels(e.placement), k) == ForcedNamespaceLabel(podLabels, k)
  {
    var e := PodFor(podLabels, fallback);
    forall k
      ensures k in e.placement.otherNamespaceLabels <==> NAMESPACE_LABELS_PREFIX + k in podLabels
    {
      ReservedKeysDiffer(k);
      if NAMESPACE_LABELS_PREFIX + k in podLabels {
        assert NAMESPACE_LABELS_PREFIX <= NAMESPACE_LABELS_PREFIX + k;
      }
    }
    forall q | q in podLabels
      ensures CiliumLabel(e.placement, q) == Some(podLabels[q])
    {
      if q != POD_NAMESPACE && NAMESPACE_LABELS_PREFIX <= q {
        var k := q[|NAMESPACE_LABELS_PREFIX|..];
        assert q == NAMESPACE_LABELS_PREFIX + k;
        PrefixedLabelOfPod(e.placement, k);
      }
    }
  }

  /** A pod the Cilium form of a label target admits and the Kubernetes form does not. */
  lemma LabelCounterexample(podLabels: Labels, n: Option<Labels>) returns (own: string, e: Endpoint)
    requires !SelectsNoPod(podLabels)
    requires n.Some? ==> exists k :: k in n.value && ForcedNamespaceLabel(podLabels, k) != Some(n.value[k])
    ensures CiliumAccepts(Label(Some(podLabels), n), own, e)
    ensures !KubernetesAccepts(Label(Some(podLabels), n), own, e)
  {
    var fallback := if n.Some? && METADATA_NAME in n.value then n.value[METADATA_NAME] + "x" else "x";
    e := PodFor(podLabels, fallback);
    own := e.placement.namespace;
    PodForMatches(podLabels, fallback);
    assert podLabels in CiliumPart(Label(Some(podLabels), n)).endpoints;
    if n.Some? {
      var k :| k in n.value && ForcedNamespaceLabel(podLabels, k) != Some(n.value[k]);
      assert Lookup(NamespaceLabels(e.placement), k) != Some(n.value[k]) by {
        if k == METADATA_NAME {
          assert |n.value[METADATA_NAME] + "x"| != |n.value[METADATA_NAME]|;
        }
      }
    }
  }

  /** The one kind of target whose Cilium form admits nobody. */
  predicate AdmitsNobody(t: Target) {
    t.Label? && t.podLabels.Some? && t.namespaceLabels.None? && SelectsNoPod(t.podLabels.value)
  }

  /** A pod of the namespace that `n` describes. */
  lemma PodOfNamespace(n: Labels) returns (own: string, e: Endpoint)
    ensures EndpointSelectorAccepts(WithPrefix(n), own, e)
  {
    own := if METADATA_NAME in n then n[METADATA_NAME] else "x";
    e := Endpoint(0, InPod(map[], own, n), false, {});
    PrefixedSelectorSelectsNamespace(n, e.placement);
  }

  /** Somebody the Cilium form of any other target admits. */
  lemma SomebodyAdmitted(t: Target) returns (own: string, e: Endpoint)
    requires !AdmitsNobody(t)
    ensures CiliumAccepts(t, own, e)
  {
    var peer := CiliumPart(t);
    own, e := "", Endpoint(0, Outside, true, {});
    match t
    case DNS(hostname) => e := Endpoint(0, Outside, false, {hostname}); assert hostname in peer.fqdns;
    case CIDRBlock(cidr) => e := Endpoint(cidr.base, Outside, false, {}); assert cidr in peer.cidr;
    case WholeCluster => e := Endpoint(0, OnNode, false, {}); assert EntityCluster in peer.identities;
    case World => assert EntityWorld in peer.identities;
    case APIServer(_) => assert EntityKubeAPIServer in peer.identities;
    case InClusterAPIServer => assert EntityKubeAPIServer in peer.identities;
    case Component(cluster, component) =>
      e := Endpoint(0, InPod(ControlPlaneLabels(cluster, component), cluster.namespace, map[]), false, {});
      ComponentTargetMeaning(cluster, component, own, e);
    case HCPController(namespace) =>
      own, e := PodOfNamespace(map[METADATA_NAME := namespace]);
      assert WithPrefix(map[METADATA_NAME := namespace]) in peer.endpoints;
    case Label(None, None) =>
    case Label(Some(p), None) =>
      e := PodFor(p, "x");
      own := e.placement.namespace;
      PodForMatches(p, "x");
      assert p in peer.endpoints;
    case Label(_, Some(n)) =>
      own, e := PodOfNamespace(n);
      assert WithPrefix(n) in peer.endpoints;
  }

  lemma LabelledPodIsIncluded(podLabels: Labels, n: Labels, own: string, e: Endpoint)
    requires EndpointSelectorAccepts(podLabels, own, e)
    requires IncludesCilium(Label(Some(podLabels), Some(n)))
    ensures Selects(n, NamespaceLabels(e.placement))
  {
    if SelectsNoPod(podLabels) {
      ContradictoryLabelsMatchNothing(podLabels, own, e);
    }
    forall k | k in n
      ensures k in NamespaceLabels(e.placement) && NamespaceLabels(e.placement)[k] == n[k]
    {
      MatchingPodHasForcedLabel(podLabels, own, e, k);
    }
  }

  lemma AdmittedByLabelTarget(podLabels: Option<Labels>, n: Labels, own: string, e: Endpoint)
    requires CiliumAccepts(Label(podLabels, Some(n)), own, e)
    requires IncludesCilium(Label(podLabels, Some(n)))
    ensures KubernetesAccepts(Label(podLabels, Some(n)), own, e)
  {
    var selectors := CiliumPart(Label(podLabels, Some(n))).endpoints;
    var s :| s in selectors && EndpointSelectorAccepts(s, own, e);
    if s == WithPrefix(n) {
      NamespaceSelectorIncluded(n, own, e);
    } else {
      assert podLabels == Some(s);
      LabelledPodIsIncluded(s, n, own, e);
    }
  }

  /** In a policy, the api-server target keeps the inclusion exactly for api servers behind the recorded IP. */
  lemma APIServerTargetIncludedAt(legacyIP: IPv4, own: string, e: Endpoint)
    ensures (CiliumAccepts(APIServer(legacyIP), own, e) ==> KubernetesAccepts(APIServer(legacyIP), own, e))
            <==> (e.apiServer ==> e.ip == legacyIP)
  {
    HostBlockContainsOnlyItself(legacyIP, e.ip);
    assert EntityKubeAPIServer in CiliumPart(APIServer(legacyIP)).identities;
  }

  lemma IncludedWhenConditionHolds(t: Target)
    requires IncludesCilium(t)
    ensures Included(t)
  {
    forall own: string, e: Endpoint | CiliumAccepts(t, own, e)
      ensures KubernetesAccepts(t, own, e)
    {
      EverywhereContainsAll(e.ip);
      match t
      case Label(podLabels, Some(n)) => AdmittedByLabelTarget(podLabels, n, own, e);
      case Label(Some(p), None) => ContradictoryLabelsMatchNothing(p, own, e);
      case HCPController(ns) => AdmittedByLabelTarget(None, map[METADATA_NAME := ns], own, e);
      case Component(cluster, component) =>
        var s := ControlPlaneLabels(cluster, component)[POD_NAMESPACE := cluster.namespace];
        assert EndpointSelectorAccepts(s, own, e);
        assert CiliumLabel(e.placement, POD_NAMESPACE) == Some(cluster.namespace);
      case _ =>
    }
  }

  /** The Kubernetes form over-approximates the Cilium form of a target exactly when `IncludesCilium` says so. */
  lemma InclusionExactly(t: Target)
    ensures Included(t) <==> IncludesCilium(t)
  {
    if IncludesCilium(t) {
      IncludedWhenConditionHolds(t);
    } else {
      match t
      case APIServer(ip) =>
        var e := Endpoint(if ip == 0 then 1 else 0, OnNode, true, {});
        APIServerTargetIncludedAt(ip, "", e);
      case Label(None, None) =>
        var e := Endpoint(0, Outside, false, {});
        assert CiliumAccepts(t, "", e) && !KubernetesAccepts(t, "", e);
      case Label(Some(p), n) =>
        var own, e := LabelCounterexample(p, n);
    }
  }

  lemma IncludedAt(t: Target, own: string, e: Endpoint)
    requires IncludesCilium(t) && CiliumAccepts(t, own, e)
    ensures KubernetesAccepts(t, own, e)
  {
    IncludedWhenConditionHolds(t);
  }

  lemma SeparatingEndpoint(t: Target) returns (own: string, e: Endpoint)
    requires !IncludesCilium(t)
    ensures CiliumAccepts(t, own, e) && !KubernetesAccepts(t, own, e)
  {
    InclusionExactly(t);
    own, e :| CiliumAccepts(t, own, e) && !KubernetesAccepts(t, own, e);
  }

  lemma NobodyIsAdmitted(t: Target, own: string, e: Endpoint)
    requires CiliumAccepts(t, own, e)
    ensures !AdmitsNobody(t)
  {
    if AdmitsNobody(t) {
      ContradictoryLabelsMatchNothing(t.podLabels.value, own, e);
    }
  }

  /** The component target: Cilium admits the component's pods, Kubernetes every pod of the namespace. */
  lemma ComponentTargetMeaning(cluster: ClusterRef, component: string, own: string, e: Endpoint)
    ensures KubernetesAccepts(Component(cluster, component), own, e)
            <==> e.placement.InPod? && e.placement.namespace == cluster.namespace
    ensures CiliumAccepts(Component(cluster, component), own, e)
            <==> && e.placement.InPod? && e.placement.namespace == cluster.namespace
                 && Selects(ControlPlaneLabels(cluster, component), e.placement.podLabels)
  {
    var labels := ControlPlaneLabels(cluster, component);
    var s := labels[POD_NAMESPACE := cluster.namespace];
    assert CLUSTER_NAME[0] == 'c' && COMPONENT[0] == 'a' && POD_NAMESPACE[0] == 'i';
    assert NAMESPACE_LABELS_PREFIX[0] == 'i';
    assert forall k :: k in labels ==> k != POD_NAMESPACE && !(NAMESPACE_LABELS_PREFIX <= k);
    assert POD_NAMESPACE in s && NamesNamespace(s);
    assert CiliumPart(Component(cluster, component)).endpoints == [s];
    if e.placement.InPod? {
      var want := map[METADATA_NAME := cluster.namespace];
      assert METADATA_NAME in want;
      assert forall k :: k in s <==> k in labels || k == POD_NAMESPACE;
      if EndpointSelectorAccepts(s, own, e) {
        assert CiliumLabel(e.placement, POD_NAMESPACE) == Some(s[POD_NAMESPACE]);
        forall k | k in labels
          ensures k in e.placement.podLabels && e.placement.podLabels[k] == labels[k]
        {
          assert CiliumLabel(e.placement, k) == Some(s[k]);
        }
      }
    }
  }

  // ---------------------------------------------------------------- what every kind of target admits

  predicate PodOf(namespace: string, e: Endpoint) {
    e.placement.InPod? && e.placement.namespace == namespace
  }

  /** Whom the Kubernetes form of every target admits, in terms of the endpoint alone. */
  lemma KubernetesTargetMeaning(t: Target, own: string, e: Endpoint)
    ensures KubernetesAccepts(t, own, e) <==>
            match t
            case DNS(_) => true
            case CIDRBlock(cidr) => cidr.Contains(e.ip)
            case WholeCluster => true
            case World => true
            case APIServer(ip) => e.ip == ip
            case InClusterAPIServer => true
            case Component(cluster, _) => PodOf(cluster.namespace, e)
            case Label(None, None) => PodOf(own, e)
            case Label(Some(_), None) => false
            case Label(_, Some(n)) => e.placement.InPod? && Selects(n, NamespaceLabels(e.placement))
            case HCPController(namespace) => PodOf(namespace, e)
  {
    EverywhereContainsAll(e.ip);
    match t
    case APIServer(ip) => HostBlockContainsOnlyItself(ip, e.ip);
    case Component(cluster, component) => ComponentTargetMeaning(cluster, component, own, e);
    case HCPController(namespace) =>
      var n := map[METADATA_NAME := namespace];
      assert METADATA_NAME in n;
    case _ =>
  }

  /** A pod whose namespace carries the labels; without any label, of the policy's own namespace. */
  predicate PodOfNamespaceWith(n: Labels, own: string, e: Endpoint) {
    && e.placement.InPod? && Selects(n, NamespaceLabels(e.placement))
    && (n != map[] || e.placement.namespace == own)
  }

  lemma NamespaceSelectorMeaning(n: Labels, own: string, e: Endpoint)
    ensures EndpointSelectorAccepts(WithPrefix(n), own, e) <==> PodOfNamespaceWith(n, own, e)
  {
    if e.placement.InPod? {
      PrefixedSelectorSelectsNamespace(n, e.placement);
    }
    if n != map[] {
      var k :| k in n;
      assert NAMESPACE_LABELS_PREFIX + k in WithPrefix(n);
      assert NAMESPACE_LABELS_PREFIX <= NAMESPACE_LABELS_PREFIX + k;
    }
  }

  predicate CarriesControlPlaneLabels(labels: Labels, cluster: ClusterRef, component: string) {
    && Lookup(labels, CLUSTER_NAME) == Some(cluster.name)
    && (component != "" ==> Lookup(labels, COMPONENT) == Some(component))
  }

  /** Whom the Cilium form of every target admits; selectors of a label target are alternatives. */
  lemma CiliumTargetMeaning(t: Target, own: string, e: Endpoint)
    ensures CiliumAccepts(t, own, e) <==>
            match t
            case DNS(hostname) => e.placement.Outside? && hostname in e.names
            case CIDRBlock(cidr) => e.placement.Outside? && cidr.Contains(e.ip)
            case WholeCluster => !e.placement.Outside?
            case World => e.placement.Outside?
            case APIServer(_) => e.apiServer
            case InClusterAPIServer => e.apiServer
            case Component(cluster, component) =>
              PodOf(cluster.namespace, e) && CarriesControlPlaneLabels(e.placement.podLabels, cluster, component)
            case Label(None, None) => true
            case Label(Some(p), None) => EndpointSelectorAccepts(p, own, e)
            case Label(None, Some(n)) => PodOfNamespaceWith(n, own, e)
            case Label(Some(p), Some(n)) => EndpointSelectorAccepts(p, own, e) || PodOfNamespaceWith(n, own, e)
            case HCPController(namespace) => PodOf(namespace, e)
  {
    var peer := CiliumPart(t);
    match t
    case DNS(hostname) => assert hostname in peer.fqdns;
    case CIDRBlock(cidr) => assert cidr in peer.cidr;
    case WholeCluster => assert EntityCluster in peer.identities;
    case World => assert EntityWorld in peer.identities;
    case APIServer(_) => assert EntityKubeAPIServer in peer.identities;
    case InClusterAPIServer => assert EntityKubeAPIServer in peer.identities;
    case Component(cluster, component) =>
      ComponentTargetMeaning(cluster, component, own, e);
      if e.placement.InPod? {
        ControlPlaneLabelsMean(e.placement.podLabels, cluster, component);
      }
    case HCPController(namespace) => ControllerTargetMeaning(namespace, own, e);
    case Label(None, None) =>
    case Label(Some(p), None) => EndpointsMean([p], own, e);
    case Label(None, Some(n)) =>
      EndpointsMean([WithPrefix(n)], own, e);
      NamespaceSelectorMeaning(n, own, e);
    case Label(Some(p), Some(n)) =>
      EndpointsMean([p, WithPrefix(n)], own, e);
      NamespaceSelectorMeaning(n, own, e);
      assert peer.endpoints == [p, WithPrefix(n)];
  }

  lemma EndpointsMean(selectors: seq<Labels>, own: string, e: Endpoint)
    requires selectors != []
    ensures CiliumPeerAccepts(CiliumPeer(selectors, [], [], []), own, e)
            <==> exists i :: 0 <= i < |selectors| && EndpointSelectorAccepts(selectors[i], own, e)
  {
    var peer := CiliumPeer(selectors, [], [], []);
    assert peer.endpoints != EMPTY_CILIUM_PEER.endpoints;
    if i :| 0 <= i < |selectors| && EndpointSelectorAccepts(selectors[i], own, e) {
      assert selectors[i] in peer.endpoints;
    }
  }

  lemma ControllerTargetMeaning(namespace: string, own: string, e: Endpoint)
    ensures CiliumAccepts(HCPController(namespace), own, e) <==> PodOf(namespace, e)
  {
    var n := map[METADATA_NAME := namespace];
    assert METADATA_NAME in n;
    assert CiliumPart(HCPController(namespace)) == CiliumPeer([WithPrefix(n)], [], [], []);
    EndpointsMean([WithPrefix(n)], own, e);
    NamespaceSelectorMeaning(n, own, e);
  }

  lemma ControlPlaneLabelsMean(labels: Labels, cluster: ClusterRef, component: string)
    ensures Selects(ControlPlaneLabels(cluster, component), labels)
            <==> CarriesControlPlaneLabels(labels, cluster, component)
  {
    var wanted := ControlPlaneLabels(cluster, component);
    assert CLUSTER_NAME[0] == 'c' && COMPONENT[0] == 'a';
    assert CLUSTER_NAME in wanted && (component != "" <==> COMPONENT in wanted);
  }
}

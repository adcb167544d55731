/** The egress the API server gets for its audit webhooks, added to the targets it has anyway. */
module AuditWebhookPorts {
  import opened Common
  import opened NetworkPolicyTargets
  import opened NetworkPolicyRules

  /** A webhook's server URL after parsing: its port may be missing or not a number. */
  datatype PortText = NoPort | PortNumber(port: int) | NotANumber
  datatype Server = Unparsable | Server(host: string, port: PortText)

  predicate Parses(s: Server) {
    s.Server? && !s.port.NotANumber?
  }

  /** Undoing the conversion: the result names the URL up to an absent port, which stands for 443. */
  function ConvertAuditWebhookTarget(s: Server): (r: Option<(string, int)>)
    ensures r.None? ==> !Parses(s)
    ensures r.Some? ==>
              s == Server(r.value.0, PortNumber(r.value.1)) || (s == Server(r.value.0, NoPort) && r.value.1 == 443)
  {
    if s.Unparsable? || s.port.NotANumber? then None
    else Some((s.host, if s.port.NoPort? then 443 else s.port.port))
  }

  predicate AllParse(servers: seq<Server>) {
    forall s :: s in servers ==> Parses(s)
  }

  /** The host to reach under `port` for a server, if that is its port. */
  predicate IsAt(s: Server, host: string, port: int) {
    ConvertAuditWebhookTarget(s) == Some((host, port))
  }

  function Upto(n: nat): (r: set<nat>)
    ensures forall i: nat :: i in r <==> i < n
  {
    if n == 0 then {} else Upto(n - 1) + {n - 1}
  }

  /** Server `i` of `servers` is among the handled ones and contributes `t` under `port`. */
  ghost predicate Contributes(servers: seq<Server>, handled: set<nat>, port: int, t: Target) {
    exists i :: i in handled && i < |servers| && t.DNS? && IsAt(servers[i], t.hostname, port)
  }

  ghost predicate Has(m: TargetMap, port: int, t: Target) {
    port in m && t in m[port]
  }

  function Listed(m: TargetMap, port: int): seq<Target> {
    if port in m then m[port] else []
  }

  ghost function HandledAt(servers: seq<Server>, handled: set<nat>, port: int): set<nat> {
    set i | i in handled && i < |servers| && ConvertAuditWebhookTarget(servers[i]).Some?
            && ConvertAuditWebhookTarget(servers[i]).value.1 == port
  }

  /** Exactly the handled servers were added, behind what was listed before. */
  ghost predicate Added(before: TargetMap, after: TargetMap, servers: seq<Server>, handled: set<nat>) {
    && (forall p, t :: Has(after, p, t) <==> Has(before, p, t) || Contributes(servers, handled, p, t))
    && (forall p :: p in after && p !in before ==> after[p] != [])
    && (forall p :: p in before ==> p in after && before[p] <= after[p])
  }

  /** Each handled server was added once. */
  ghost predicate AddedOnce(before: TargetMap, after: TargetMap, servers: seq<Server>, handled: set<nat>) {
    forall p :: |Listed(after, p)| == |Listed(before, p)| + |HandledAt(servers, handled, p)|
  }

  class EgressTargets {
    var targets: TargetMap

    constructor (m: TargetMap)
      ensures targets == m
    {
      targets := m;
    }

    /**
     * The servers are handled in the order in which a map happens to yield them. A server that is listed already is
     * listed again: the check for it asks for a pointer type that no target has.
     */
    method SetAuditWebhookPorts(servers: seq<Server>) returns (ok: bool)
      modifies this
      ensures ok <==> AllParse(servers)
      ensures ok ==> Added(old(targets), targets, servers, Upto(|servers|))
      ensures ok ==> AddedOnce(old(targets), targets, servers, Upto(|servers|))
      ensures !ok ==> targets == old(targets)
    {
      if !AllParse(servers) {
        return false;
      }
      ghost var all := Upto(|servers|);
      ghost var handled: set<nat> := {};
      var todo := Upto(|servers|);
      while todo != {}
        invariant todo <= all && handled == all - todo
        invariant Added(old(targets), targets, servers, handled)
        invariant AddedOnce(old(targets), targets, servers, handled)
        decreases |todo|
      {
        var i :| i in todo;
        todo := todo - {i};
        assert servers[i] in servers;
        ghost var was := targets;
        var (host, port) := ConvertAuditWebhookTarget(servers[i]).value;
        if port !in targets {
          targets := targets[port := [DNS(host)]];
        } else {
          targets := targets[port := targets[port] + [DNS(host)]];
        }
        assert Listed(targets, port) == Listed(was, port) + [DNS(host)];
        assert targets == was[port := Listed(was, port) + [DNS(host)]];
        OneMore(old(targets), was, targets, servers, handled, i);
        OneMoreCounted(old(targets), was, targets, servers, handled, i);
        handled := handled + {i};
      }
      assert handled == all;
      return true;
    }
  }

  ghost predicate Appended(was: TargetMap, now: TargetMap, s: Server) {
    match ConvertAuditWebhookTarget(s)
    case None => false
    case Some((host, port)) => now == was[port := Listed(was, port) + [DNS(host)]]
  }

  lemma OneMore(before: TargetMap, was: TargetMap, now: TargetMap, servers: seq<Server>, handled: set<nat>, i: nat)
    requires i < |servers| && Appended(was, now, servers[i])
    requires Added(before, was, servers, handled)
    ensures Added(before, now, servers, handled + {i})
  {
    var (host, port) := ConvertAuditWebhookTarget(servers[i]).value;
    forall p, t
      ensures Has(now, p, t) <==> Has(before, p, t) || Contributes(servers, handled + {i}, p, t)
    {
      ContributesMore(servers, handled, i, p, t);
      assert Has(now, p, t) <==> Has(was, p, t) || (p == port && t == DNS(host));
    }
  }

  lemma OneMoreCounted(
    before: TargetMap, was: TargetMap, now: TargetMap, servers: seq<Server>, handled: set<nat>, i: nat)
    requires i < |servers| && i !in handled && Appended(was, now, servers[i])
    requires AddedOnce(before, was, servers, handled)
    ensures AddedOnce(before, now, servers, handled + {i})
  {
    forall p
      ensures |Listed(now, p)| == |Listed(before, p)| + |HandledAt(servers, handled + {i}, p)|
    {
      assert |Listed(was, p)| == |Listed(before, p)| + |HandledAt(servers, handled, p)|;
      HandledOneMore(servers, handled, i, p);
    }
  }

  lemma HandledOneMore(servers: seq<Server>, handled: set<nat>, i: nat, p: int)
    requires i < |servers| && i !in handled && ConvertAuditWebhookTarget(servers[i]).Some?
    ensures |HandledAt(servers, handled + {i}, p)| ==
            |HandledAt(servers, handled, p)| + if ConvertAuditWebhookTarget(servers[i]).value.1 == p then 1 else 0
  {
    var more := if ConvertAuditWebhookTarget(servers[i]).value.1 == p then {i} else {};
    assert HandledAt(servers, handled + {i}, p) == HandledAt(servers, handled, p) + more;
  }

  lemma ContributesMore(servers: seq<Server>, handled: set<nat>, i: nat, p: int, t: Target)
    requires i < |servers| && ConvertAuditWebhookTarget(servers[i]).Some?
    ensures Contributes(servers, handled + {i}, p, t) <==>
            Contributes(servers, handled, p, t) || (t.DNS? && IsAt(servers[i], t.hostname, p))
  {
    if Contributes(servers, handled + {i}, p, t) {
      var j :| j in handled + {i} && j < |servers| && t.DNS? && IsAt(servers[j], t.hostname, p);
      assert j != i ==> j in handled;
    }
    if t.DNS? && IsAt(servers[i], t.hostname, p) {
      assert i in handled + {i};
    }
    if Contributes(servers, handled, p, t) {
      var j :| j in handled && j < |servers| && t.DNS? && IsAt(servers[j], t.hostname, p);
      assert j in handled + {i};
    }
  }

  // ---------------------------------------------------------------- what the additions admit

  /** Traffic to the server's own host on its port: 443 by default, and port 0 of a URL stands for every port. */
  predicate ReachesByName(s: Server, packet: Packet, e: Endpoint) {
    && Parses(s) && e.placement.Outside? && s.host in e.names
    && (if s.port.NoPort? then packet.port == 443 else s.port.port == 0 || packet.port == s.port.port)
  }

  /** Without names Kubernetes can only open the server's port. */
  predicate ReachesByPort(s: Server, packet: Packet) {
    && Parses(s)
    && (if s.port.NoPort? then packet == Packet(443, TCP)
        else s.port.port == 0 || packet == Packet(s.port.port, TCP))
  }

  lemma DNSMeans(host: string, own: string, e: Endpoint)
    ensures KubernetesAccepts(DNS(host), own, e)
    ensures CiliumAccepts(DNS(host), own, e) <==> e.placement.Outside? && host in e.names
  {
    EverywhereContainsAll(e.ip);
    assert host in CiliumPart(DNS(host)).fqdns;
  }

  lemma ReachesAt(s: Server, host: string, port: int, packet: Packet, e: Endpoint)
    requires IsAt(s, host, port)
    ensures ReachesByName(s, packet, e) <==>
            (port == 0 || port == packet.port) && e.placement.Outside? && host in e.names
    ensures ReachesByPort(s, packet) <==> port == 0 || (port == packet.port && packet.protocol == TCP)
  {
  }

  /** What the map held before, it still holds. */
  lemma StillAllowed(
    before: TargetMap, after: TargetMap, servers: seq<Server>, own: string, packet: Packet, e: Endpoint)
    requires Added(before, after, servers, Upto(|servers|))
    ensures MapAllowsCilium(before, own, packet, e) ==> MapAllowsCilium(after, own, packet, e)
    ensures MapAllowsKubernetes(before, own, packet, e) ==> MapAllowsKubernetes(after, own, packet, e)
  {
    forall p, t | p in before && t in before[p]
      ensures p in after && t in after[p]
    {
      assert Has(before, p, t);
      assert Has(after, p, t);
    }
  }

  /** A target of the map was there before or belongs to a server. */
  lemma OldOrContributed(before: TargetMap, after: TargetMap, servers: seq<Server>, p: int, t: Target)
    returns (s: Option<Server>)
    requires Added(before, after, servers, Upto(|servers|)) && p in after && t in after[p]
    ensures s.None? ==> p in before && t in before[p]
    ensures s.Some? ==> s.value in servers && t.DNS? && IsAt(s.value, t.hostname, p)
  {
    assert Has(after, p, t);
    if Has(before, p, t) {
      return None;
    }
    var server := Contributor(servers, p, t);
    return Some(server);
  }

  /** A server's host is in the map under its port. */
  lemma ServerIsListed(before: TargetMap, after: TargetMap, servers: seq<Server>, s: Server)
    returns (host: string, port: int)
    requires Added(before, after, servers, Upto(|servers|)) && s in servers && Parses(s)
    ensures IsAt(s, host, port) && port in after && DNS(host) in after[port]
  {
    host, port := ConvertAuditWebhookTarget(s).value.0, ConvertAuditWebhookTarget(s).value.1;
    IsContributed(servers, s, port, host);
    assert Has(after, port, DNS(host));
  }

  /** For Cilium the webhooks open exactly their hosts on their ports, beyond what was open before. */
  lemma WebhooksMeanForCilium(
    before: TargetMap, after: TargetMap, servers: seq<Server>, own: string, packet: Packet, e: Endpoint)
    requires Added(before, after, servers, Upto(|servers|))
    ensures MapAllowsCilium(after, own, packet, e) <==>
            MapAllowsCilium(before, own, packet, e) || exists s :: s in servers && ReachesByName(s, packet, e)
  {
    StillAllowed(before, after, servers, own, packet, e);
    if MapAllowsCilium(after, own, packet, e) {
      var p, t :| p in after && t in after[p] && (p == 0 || p == packet.port) && CiliumAccepts(t, own, e);
      var s := OldOrContributed(before, after, servers, p, t);
      if s.Some? {
        DNSMeans(t.hostname, own, e);
        ReachesAt(s.value, t.hostname, p, packet, e);
      }
    }
    if s :| s in servers && ReachesByName(s, packet, e) {
      var host, port := ServerIsListed(before, after, servers, s);
      DNSMeans(host, own, e);
      ReachesAt(s, host, port, packet, e);
    }
  }

  /** For Kubernetes they open their ports to every address. */
  lemma WebhooksMeanForKubernetes(
    before: TargetMap, after: TargetMap, servers: seq<Server>, own: string, packet: Packet, e: Endpoint)
    requires Added(before, after, servers, Upto(|servers|))
    ensures MapAllowsKubernetes(after, own, packet, e) <==>
            MapAllowsKubernetes(before, own, packet, e) || exists s :: s in servers && ReachesByPort(s, packet)
  {
    StillAllowed(before, after, servers, own, packet, e);
    if MapAllowsKubernetes(after, own, packet, e) {
      var p, t :| p in after && t in after[p]
        && (p == 0 || (p == packet.port && packet.protocol == TCP)) && KubernetesAccepts(t, own, e);
      var s := OldOrContributed(before, after, servers, p, t);
      if s.Some? {
        ReachesAt(s.value, t.hostname, p, packet, e);
      }
    }
    if s :| s in servers && ReachesByPort(s, packet) {
      var host, port := ServerIsListed(before, after, servers, s);
      DNSMeans(host, own, e);
      ReachesAt(s, host, port, packet, e);
    }
  }

  lemma Contributor(servers: seq<Server>, p: int, t: Target) returns (s: Server)
    requires Contributes(servers, Upto(|servers|), p, t)
    ensures s in servers && t.DNS? && IsAt(s, t.hostname, p)
  {
    var i :| 0 <= i < |servers| && t.DNS? && IsAt(servers[i], t.hostname, p);
    s := servers[i];
  }

  lemma IsContributed(servers: seq<Server>, s: Server, port: int, host: string)
    requires s in servers && IsAt(s, host, port)
    ensures Contributes(servers, Upto(|servers|), port, DNS(host))
  {
    var i :| 0 <= i < |servers| && servers[i] == s;
    assert i in Upto(|servers|);
  }
}

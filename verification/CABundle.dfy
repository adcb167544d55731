/** The two-generation CA bundles: what is published over any run of CA rotations and reconciles. */
module CABundle {
  import opened Common
  import opened CADefinitions

  type Bytes = seq<bv8>
  type Data = map<string, Bytes>
  type Secrets = map<string, Data>

  const CA_CERT := "ca.crt"
  const CURRENT := "current.crt"
  const OLD := "old.crt"

  /** Indexing a secret's data; an absent key reads as no bytes. */
  function Get(data: Data, key: string): Bytes {
    if key in data then data[key] else []
  }

  /** The bytes under a key of a secret, none if the secret does not exist. */
  function Read(secrets: Secrets, name: string, key: string): Bytes {
    if name in secrets then Get(secrets[name], key) else []
  }

  /** Which of the API calls for one definition would succeed. */
  datatype Calls = Calls(secretGet: bool, bundleGet: bool, apply: bool)

  /** Server-side apply: the three keys are set, keys of others stay. */
  function Publish(secrets: Secrets, name: string, old_: Bytes, current: Bytes): Secrets {
    secrets[name := (if name in secrets then secrets[name] else map[]) +
                    map[CURRENT := current, OLD := old_, CA_CERT := old_ + current]]
  }

  /** The reconcile reads a populated CA and leaves it as the bundle's current certificate. */
  predicate Observes(secrets: Secrets, def: CADefinition, calls: Calls) {
    && calls.secretGet && calls.bundleGet
    && Read(secrets, def.secretName, CA_CERT) != []
    && (calls.apply || Read(secrets, def.bundleSecretName, CURRENT) == Read(secrets, def.secretName, CA_CERT))
  }

  function AfterBundle(secrets: Secrets, def: CADefinition, calls: Calls): Secrets {
    var ca := Read(secrets, def.secretName, CA_CERT);
    var current := Read(secrets, def.bundleSecretName, CURRENT);
    if Observes(secrets, def, calls) && current != ca then Publish(secrets, def.bundleSecretName, current, ca)
    else secrets
  }

  function BundleOutcome(secrets: Secrets, def: CADefinition, calls: Calls): Outcome {
    if !calls.secretGet then Failed("failed to get CA secret")
    else if def.secretName !in secrets then NotReady("CA secret not yet available")
    else if Read(secrets, def.secretName, CA_CERT) == [] then NotReady("CA secret not yet populated")
    else if !calls.bundleGet then Failed("failed to get CA bundle secret")
    else if !Observes(secrets, def, calls) then Failed("failed to apply CA bundle secret")
    else Done
  }

  /** The definitions in order, up to the first that fails. */
  function AfterBundles(secrets: Secrets, defs: seq<CADefinition>, calls: seq<Calls>): Secrets
    requires |defs| == |calls|
    decreases |defs|
  {
    if defs == [] || BundleOutcome(secrets, defs[0], calls[0]).Failed? then secrets
    else AfterBundles(AfterBundle(secrets, defs[0], calls[0]), defs[1..], calls[1..])
  }

  /** What a pass reports: the first error, or else every reason, joined. */
  function PassOutcome(secrets: Secrets, defs: seq<CADefinition>, calls: seq<Calls>, reasons: seq<string>): Outcome
    requires |defs| == |calls|
    decreases |defs|
  {
    if defs == [] then (if Join(reasons) == "" then Done else NotReady(Join(reasons)))
    else
      var o := BundleOutcome(secrets, defs[0], calls[0]);
      if o.Failed? then o
      else PassOutcome(AfterBundle(secrets, defs[0], calls[0]), defs[1..], calls[1..],
                       if o.NotReady? then reasons + [o.reason] else reasons)
  }

  class SecretStore {
    var secrets: Secrets

    constructor (s: Secrets)
      ensures secrets == s
    {
      secrets := s;
    }

    method ReconcileCABundle(def: CADefinition, calls: Calls) returns (o: Outcome)
      modifies this
      ensures o == BundleOutcome(old(secrets), def, calls)
      ensures secrets == AfterBundle(old(secrets), def, calls)
    {
      if !calls.secretGet {
        return Failed("failed to get CA secret");
      }
      if def.secretName !in secrets {
        return NotReady("CA secret not yet available");
      }
      var currentCACert := Get(secrets[def.secretName], CA_CERT);
      if |currentCACert| == 0 {
        return NotReady("CA secret not yet populated");
      }
      var oldCACert := [];
      if !calls.bundleGet {
        return Failed("failed to get CA bundle secret");
      }
      if def.bundleSecretName in secrets {
        var bundleCurrentCert := Get(secrets[def.bundleSecretName], CURRENT);
        if bundleCurrentCert == currentCACert {
          return Done;
        }
        oldCACert := bundleCurrentCert;
      }
      if !calls.apply {
        return Failed("failed to apply CA bundle secret");
      }
      secrets := Publish(secrets, def.bundleSecretName, oldCACert, currentCACert);
      return Done;
    }

    method ReconcileCABundles(defs: seq<CADefinition>, calls: seq<Calls>) returns (o: Outcome)
      requires |defs| == |calls|
      modifies this
      ensures secrets == AfterBundles(old(secrets), defs, calls)
      ensures o == PassOutcome(old(secrets), defs, calls, [])
    {
      var reasons: seq<string> := [];
      for i := 0 to |defs|
        invariant AfterBundles(secrets, defs[i..], calls[i..]) == AfterBundles(old(secrets), defs, calls)
        invariant PassOutcome(secrets, defs[i..], calls[i..], reasons) == PassOutcome(old(secrets), defs, calls, [])
      {
        o := ReconcileCABundle(defs[i], calls[i]);
        assert defs[i..][1..] == defs[i + 1..] && calls[i..][1..] == calls[i + 1..];
        if o.Failed? {
          return;
        }
        if o.NotReady? {
          reasons := reasons + [o.reason];
        }
      }
      return if Join(reasons) == "" then Done else NotReady(Join(reasons));
    }
  }

  ghost predicate SameSecret(s: Secrets, t: Secrets, name: string) {
    (name in s <==> name in t) && (name in s ==> s[name] == t[name])
  }

  /** The bundle's current certificate is the populated CA certificate. */
  ghost predicate UpToDate(secrets: Secrets, def: CADefinition) {
    && Read(secrets, def.secretName, CA_CERT) != []
    && Read(secrets, def.bundleSecretName, CURRENT) == Read(secrets, def.secretName, CA_CERT)
  }

  /**
   * One definition, from the two certificates and the calls alone: a populated CA that differs from the bundle's
   * current certificate is published whenever the calls work, and nothing else is ever written.
   */
  lemma BundleStepExactly(secrets: Secrets, def: CADefinition, calls: Calls)
    requires def.secretName != def.bundleSecretName
    ensures var ca := Read(secrets, def.secretName, CA_CERT);
            var current := Read(secrets, def.bundleSecretName, CURRENT);
            var t := AfterBundle(secrets, def, calls);
            var works := calls.secretGet && calls.bundleGet && calls.apply;
            && (UpToDate(t, def) <==> ca != [] && (current == ca || works))
            && (if ca != [] && current != ca && works then
                  && t.Keys == secrets.Keys + {def.bundleSecretName}
                  && (forall n :: n in secrets && n != def.bundleSecretName ==> t[n] == secrets[n])
                  && var bundle := t[def.bundleSecretName];
                     && Get(bundle, CURRENT) == ca && Get(bundle, OLD) == current
                     && Get(bundle, CA_CERT) == current + ca
                     && forall k :: k !in {CURRENT, OLD, CA_CERT} ==>
                          Get(bundle, k) == Read(secrets, def.bundleSecretName, k)
                else t == secrets)
  {
  }

  /** What is reported, from the same facts. */
  lemma BundleOutcomeExactly(secrets: Secrets, def: CADefinition, calls: Calls)
    ensures var ca := Read(secrets, def.secretName, CA_CERT);
            var current := Read(secrets, def.bundleSecretName, CURRENT);
            var o := BundleOutcome(secrets, def, calls);
            && (o.Failed? <==>
                  || !calls.secretGet
                  || (ca != [] && !calls.bundleGet)
                  || (ca != [] && current != ca && !calls.apply))
            && (o.NotReady? <==> calls.secretGet && ca == [])
            && (o.NotReady? ==> (o.reason == "CA secret not yet available" <==> def.secretName !in secrets))
  {
    assert "CA secret not yet available"[18] != "CA secret not yet populated"[18];
  }

  // ---------------------------------------------------------------- one definition in a pass

  /** No definition before d fails. */
  predicate ReachesDefinition(secrets: Secrets, defs: seq<CADefinition>, calls: seq<Calls>, d: nat)
    requires |defs| == |calls| && d < |defs|
  {
    forall i :: 0 <= i < d ==> !BundleOutcome(secrets, defs[i], calls[i]).Failed?
  }

  /** A step for one definition leaves what the others look at alone. */
  lemma StepsDoNotInterfere(secrets: Secrets, defs: seq<CADefinition>, i: nat, j: nat, calls: Calls, other: Calls)
    requires NamesApart(defs) && i < |defs| && j < |defs| && i != j
    ensures var t := AfterBundle(secrets, defs[i], calls);
            && SameSecret(t, secrets, defs[j].secretName) && SameSecret(t, secrets, defs[j].bundleSecretName)
            && BundleOutcome(t, defs[j], other) == BundleOutcome(secrets, defs[j], other)
  {
  }

  /** In a pass every reached definition takes its own step, and an unreached one none. */
  lemma {:induction false} PassAtDefinition(secrets: Secrets, defs: seq<CADefinition>, calls: seq<Calls>, d: nat)
    requires |defs| == |calls| && d < |defs| && NamesApart(defs)
    ensures SameSecret(
              AfterBundles(secrets, defs, calls),
              if ReachesDefinition(secrets, defs, calls, d) then AfterBundle(secrets, defs[d], calls[d]) else secrets,
              defs[d].bundleSecretName)
    ensures SameSecret(AfterBundles(secrets, defs, calls), secrets, defs[d].secretName)
    decreases |defs|
  {
    if BundleOutcome(secrets, defs[0], calls[0]).Failed? {
    } else {
      var t := AfterBundle(secrets, defs[0], calls[0]);
      if d > 0 {
        forall j | 0 < j < |defs|
          ensures SameSecret(t, secrets, defs[j].secretName) && SameSecret(t, secrets, defs[j].bundleSecretName)
          ensures BundleOutcome(t, defs[j], calls[j]) == BundleOutcome(secrets, defs[j], calls[j])
        {
          StepsDoNotInterfere(secrets, defs, 0, j, calls[0], calls[j]);
        }
        PassAtDefinition(t, defs[1..], calls[1..], d - 1);
      } else {
        OthersLeave(t, defs[1..], calls[1..], defs[0].bundleSecretName);
        OthersLeave(t, defs[1..], calls[1..], defs[0].secretName);
      }
    }
  }

  lemma {:induction false} OthersLeave(secrets: Secrets, defs: seq<CADefinition>, calls: seq<Calls>, name: string)
    requires |defs| == |calls|
    requires forall i :: 0 <= i < |defs| ==> defs[i].bundleSecretName != name
    ensures SameSecret(AfterBundles(secrets, defs, calls), secrets, name)
    decreases |defs|
  {
    if defs != [] {
      OthersLeave(AfterBundle(secrets, defs[0], calls[0]), defs[1..], calls[1..], name);
    }
  }

  // ---------------------------------------------------------------- runs

  /** A secret is written or removed by someone else, or the controller reconciles the bundles. */
  datatype Event =
    | Change(name: string, data: Option<Data>)
    | Reconcile(calls: seq<Calls>)

  /** Only the controller writes the bundles. */
  ghost predicate SoleWriter(defs: seq<CADefinition>, e: Event) {
    match e
    case Change(name, _) => forall i :: 0 <= i < |defs| ==> defs[i].bundleSecretName != name
    case Reconcile(calls) => |calls| == |defs|
  }

  ghost predicate SoleWriterOf(defs: seq<CADefinition>, events: seq<Event>) {
    forall e :: e in events ==> SoleWriter(defs, e)
  }

  function Next(secrets: Secrets, defs: seq<CADefinition>, e: Event): Secrets
    requires e.Reconcile? ==> |e.calls| == |defs|
  {
    match e
    case Change(name, data) => if data.Some? then secrets[name := data.value] else secrets - {name}
    case Reconcile(calls) => AfterBundles(secrets, defs, calls)
  }

  ghost function After(secrets: Secrets, defs: seq<CADefinition>, events: seq<Event>): Secrets
    requires SoleWriterOf(defs, events)
    decreases |events|
  {
    if events == [] then secrets
    else
      assert SoleWriter(defs, events[0]);
      After(Next(secrets, defs, events[0]), defs, events[1..])
  }

  ghost predicate ObservedAt(secrets: Secrets, defs: seq<CADefinition>, e: Event, d: nat)
    requires d < |defs| && SoleWriter(defs, e)
  {
    && e.Reconcile?
    && ReachesDefinition(secrets, defs, e.calls, d)
    && Observes(secrets, defs[d], e.calls[d])
  }

  /** The CA certificates the run's reconciles saw and took over, in order. */
  ghost function Observed(secrets: Secrets, defs: seq<CADefinition>, events: seq<Event>, d: nat): seq<Bytes>
    requires d < |defs| && SoleWriterOf(defs, events)
    decreases |events|
  {
    if events == [] then []
    else
      assert SoleWriter(defs, events[0]);
      var rest := Observed(Next(secrets, defs, events[0]), defs, events[1..], d);
      if ObservedAt(secrets, defs, events[0], d) then [Read(secrets, defs[d].secretName, CA_CERT)] + rest else rest
  }

  /** The bundle's content after every event that changed it. */
  ghost function Publications(secrets: Secrets, defs: seq<CADefinition>, events: seq<Event>, d: nat): seq<Data>
    requires d < |defs| && SoleWriterOf(defs, events)
    decreases |events|
  {
    if events == [] then []
    else
      assert SoleWriter(defs, events[0]);
      var next := Next(secrets, defs, events[0]);
      var rest := Publications(next, defs, events[1..], d);
      var bundle := defs[d].bundleSecretName;
      if SameSecret(next, secrets, bundle) || bundle !in next then rest else [next[bundle]] + rest
  }

  /** A sequence without the elements that repeat the one before them. */
  function DropRepeats(last: Bytes, s: seq<Bytes>): seq<Bytes>
    decreases |s|
  {
    if s == [] then []
    else if s[0] == last then DropRepeats(last, s[1..])
    else [s[0]] + DropRepeats(s[0], s[1..])
  }

  function LastOr(s: seq<Bytes>, otherwise: Bytes): Bytes {
    if s == [] then otherwise else s[|s| - 1]
  }

  /** A bundle lists the generation before it as old, and both in order in the PEM. */
  ghost predicate FollowsOn(bundle: Data, before: Bytes) {
    Get(bundle, OLD) == before && Get(bundle, CA_CERT) == before + Get(bundle, CURRENT)
  }

  ghost predicate Chained(bundles: seq<Data>, start: Bytes) {
    forall k :: 0 <= k < |bundles| ==> FollowsOn(bundles[k], PreviousCurrent(bundles, start, k))
  }

  ghost function PreviousCurrent(bundles: seq<Data>, start: Bytes, k: nat): Bytes
    requires k <= |bundles|
  {
    if k == 0 then start else Get(bundles[k - 1], CURRENT)
  }

  ghost predicate CurrentsAre(bundles: seq<Data>, currents: seq<Bytes>) {
    |bundles| == |currents| && forall k :: 0 <= k < |bundles| ==> Get(bundles[k], CURRENT) == currents[k]
  }

  /** What one event does to one bundle. */
  lemma EventAtBundle(secrets: Secrets, defs: seq<CADefinition>, e: Event, d: nat)
    requires d < |defs| && NamesApart(defs) && SoleWriter(defs, e)
    ensures var next := Next(secrets, defs, e);
            var bundle := defs[d].bundleSecretName;
            var ca := Read(secrets, defs[d].secretName, CA_CERT);
            var start := Read(secrets, bundle, CURRENT);
            if ObservedAt(secrets, defs, e, d) && ca != start then
              && bundle in next && !SameSecret(next, secrets, bundle) && ca != []
              && Get(next[bundle], CURRENT) == ca && Get(next[bundle], OLD) == start
              && Get(next[bundle], CA_CERT) == start + ca
            else SameSecret(next, secrets, bundle)
  {
    if e.Reconcile? {
      PassAtDefinition(secrets, defs, e.calls, d);
    }
  }

  /**
   * Over any run of rotations, failures and reconciles, the bundles published for a CA are exactly the certificates
   * observed, repeats dropped, each next to the one before it; the bundle ends at the last certificate observed.
   */
  lemma {:induction false} BundleHistory(secrets: Secrets, defs: seq<CADefinition>, events: seq<Event>, d: nat)
    requires d < |defs| && NamesApart(defs) && SoleWriterOf(defs, events)
    ensures var start := Read(secrets, defs[d].bundleSecretName, CURRENT);
            var observed := Observed(secrets, defs, events, d);
            var published := Publications(secrets, defs, events, d);
            && CurrentsAre(published, DropRepeats(start, observed))
            && Chained(published, start)
            && Read(After(secrets, defs, events), defs[d].bundleSecretName, CURRENT) == LastOr(observed, start)
    decreases |events|
  {
    if events != [] {
      assert SoleWriter(defs, events[0]);
      var next := Next(secrets, defs, events[0]);
      EventAtBundle(secrets, defs, events[0], d);
      BundleHistory(next, defs, events[1..], d);
      var start := Read(secrets, defs[d].bundleSecretName, CURRENT);
      if ObservedAt(secrets, defs, events[0], d) && Read(secrets, defs[d].secretName, CA_CERT) != start {
        ChainGrows(next[defs[d].bundleSecretName], Publications(next, defs, events[1..], d), start);
      }
    }
  }

  lemma ChainGrows(bundle: Data, rest: seq<Data>, start: Bytes)
    requires FollowsOn(bundle, start) && Chained(rest, Get(bundle, CURRENT))
    ensures Chained([bundle] + rest, start)
  {
    var all := [bundle] + rest;
    forall k | 0 <= k < |all|
      ensures FollowsOn(all[k], PreviousCurrent(all, start, k))
    {
      if k > 0 {
        OneFurther(bundle, rest, start, k);
        assert FollowsOn(rest[k - 1], PreviousCurrent(rest, Get(bundle, CURRENT), k - 1));
      }
    }
  }

  lemma OneFurther(bundle: Data, rest: seq<Data>, start: Bytes, k: nat)
    requires 0 < k <= |rest|
    ensures var all := [bundle] + rest;
            && all[k] == rest[k - 1]
            && PreviousCurrent(all, start, k) == PreviousCurrent(rest, Get(bundle, CURRENT), k - 1)
  {
    var all := [bundle] + rest;
    if k > 1 {
      assert all[k - 1] == rest[k - 2];
    }
  }

  /** Consecutive publications differ, and the older one's current certificate stays trusted in the newer one. */
  lemma NoTrustGap(secrets: Secrets, defs: seq<CADefinition>, events: seq<Event>, d: nat, k: nat)
    requires d < |defs| && NamesApart(defs) && SoleWriterOf(defs, events)
    requires k + 1 < |Publications(secrets, defs, events, d)|
    ensures var p := Publications(secrets, defs, events, d);
            && Get(p[k], CURRENT) != Get(p[k + 1], CURRENT)
            && Get(p[k + 1], CA_CERT) == Get(p[k], CURRENT) + Get(p[k + 1], CURRENT)
            && Get(p[k], CA_CERT) == Get(p[k], OLD) + Get(p[k], CURRENT)
  {
    var start := Read(secrets, defs[d].bundleSecretName, CURRENT);
    var p := Publications(secrets, defs, events, d);
    BundleHistory(secrets, defs, events, d);
    NeighboursDiffer(start, Observed(secrets, defs, events, d), k + 1);
    assert FollowsOn(p[k], PreviousCurrent(p, start, k)) && FollowsOn(p[k + 1], PreviousCurrent(p, start, k + 1));
  }

  lemma {:induction false} NeighboursDiffer(last: Bytes, s: seq<Bytes>, k: nat)
    requires k < |DropRepeats(last, s)|
    ensures DropRepeats(last, s)[k] != (if k == 0 then last else DropRepeats(last, s)[k - 1])
    decreases |s|
  {
    if s[0] == last {
      NeighboursDiffer(last, s[1..], k);
    } else if k > 0 {
      NeighboursDiffer(s[0], s[1..], k - 1);
    }
  }

  ghost predicate TrustedBySome(bundles: seq<Data>, cert: Bytes) {
    exists k :: 0 <= k < |bundles| && (Get(bundles[k], CURRENT) == cert || Get(bundles[k], OLD) == cert)
  }

  lemma {:induction false} DropRepeatsKeeps(last: Bytes, s: seq<Bytes>, x: Bytes)
    requires x != last
    ensures x in DropRepeats(last, s) <==> x in s
    decreases |s|
  {
    if s != [] {
      assert s == [s[0]] + s[1..];
      if s[0] != x {
        DropRepeatsKeeps(s[0], s[1..], x);
      }
    }
  }

  /**
   * A CA certificate ever appears in a bundle exactly when a reconcile observed it: a certificate that is rotated in
   * and out between two reconciles is never trusted.
   */
  lemma TrustedIffObserved(secrets: Secrets, defs: seq<CADefinition>, events: seq<Event>, d: nat, cert: Bytes)
    requires d < |defs| && NamesApart(defs) && SoleWriterOf(defs, events)
    requires cert != Read(secrets, defs[d].bundleSecretName, CURRENT)
    ensures TrustedBySome(Publications(secrets, defs, events, d), cert) <==> cert in Observed(secrets, defs, events, d)
  {
    var start := Read(secrets, defs[d].bundleSecretName, CURRENT);
    var observed := Observed(secrets, defs, events, d);
    var p := Publications(secrets, defs, events, d);
    BundleHistory(secrets, defs, events, d);
    DropRepeatsKeeps(start, observed, cert);
    if TrustedBySome(p, cert) {
      var k :| 0 <= k < |p| && (Get(p[k], CURRENT) == cert || Get(p[k], OLD) == cert);
      assert FollowsOn(p[k], PreviousCurrent(p, start, k));
      var at := if Get(p[k], CURRENT) == cert then k else k - 1;
      assert at >= 0 && Get(p[at], CURRENT) == cert;
      assert DropRepeats(start, observed)[at] == cert;
    }
    if cert in observed {
      var k :| 0 <= k < |DropRepeats(start, observed)| && DropRepeats(start, observed)[k] == cert;
      assert Get(p[k], CURRENT) == cert;
    }
  }

  /** A pass that changes nothing else can be repeated: where every bundle is up to date nothing is written. */
  lemma {:induction false} RerunWritesNothing(secrets: Secrets, defs: seq<CADefinition>, calls: seq<Calls>)
    requires |defs| == |calls|
    requires forall i :: 0 <= i < |defs| ==> UpToDate(secrets, defs[i])
    ensures AfterBundles(secrets, defs, calls) == secrets
    decreases |defs|
  {
    if defs != [] {
      RerunWritesNothing(secrets, defs[1..], calls[1..]);
    }
  }

  lemma {:induction false} DoneExactly(
    secrets: Secrets, defs: seq<CADefinition>, calls: seq<Calls>, reasons: seq<string>)
    requires |defs| == |calls| && NamesApart(defs) && "" !in reasons
    ensures PassOutcome(secrets, defs, calls, reasons) == Done <==>
            reasons == [] && forall i :: 0 <= i < |defs| ==> Observes(secrets, defs[i], calls[i])
    decreases |defs|
  {
    if defs == [] {
      JoinIsEmptyIff(reasons);
    } else {
      var o := BundleOutcome(secrets, defs[0], calls[0]);
      if !o.Failed? {
        var t := AfterBundle(secrets, defs[0], calls[0]);
        forall j | 0 < j < |defs|
          ensures Observes(t, defs[j], calls[j]) <==> Observes(secrets, defs[j], calls[j])
        {
          StepsDoNotInterfere(secrets, defs, 0, j, calls[0], calls[j]);
        }
        assert forall j :: 0 < j < |defs| ==> defs[1..][j - 1] == defs[j] && calls[1..][j - 1] == calls[j];
        DoneExactly(t, defs[1..], calls[1..], if o.NotReady? then reasons + [o.reason] else reasons);
      }
    }
  }

  /** A pass reports nothing to wait for exactly when it observed every CA, and then every bundle is up to date. */
  lemma DoneMeansUpToDate(secrets: Secrets, defs: seq<CADefinition>, calls: seq<Calls>)
    requires |defs| == |calls| && NamesApart(defs)
    requires PassOutcome(secrets, defs, calls, []) == Done
    ensures forall d :: 0 <= d < |defs| ==> UpToDate(AfterBundles(secrets, defs, calls), defs[d])
  {
    DoneExactly(secrets, defs, calls, []);
    forall d | 0 <= d < |defs|
      ensures UpToDate(AfterBundles(secrets, defs, calls), defs[d])
    {
      assert forall i :: 0 <= i < |defs| ==> Observes(secrets, defs[i], calls[i]);
      PassAtDefinition(secrets, defs, calls, d);
    }
  }

  /** A pass fails exactly when one of its definitions does. */
  lemma {:induction false} PassFailsExactly(
    secrets: Secrets, defs: seq<CADefinition>, calls: seq<Calls>, reasons: seq<string>)
    requires |defs| == |calls| && NamesApart(defs)
    ensures PassOutcome(secrets, defs, calls, reasons).Failed? <==>
            exists i :: 0 <= i < |defs| && BundleOutcome(secrets, defs[i], calls[i]).Failed?
    decreases |defs|
  {
    if defs != [] {
      var o := BundleOutcome(secrets, defs[0], calls[0]);
      if !o.Failed? {
        var t := AfterBundle(secrets, defs[0], calls[0]);
        var rest, restCalls := defs[1..], calls[1..];
        PassFailsExactly(t, rest, restCalls, if o.NotReady? then reasons + [o.reason] else reasons);
        forall j | 0 < j < |defs|
          ensures BundleOutcome(t, rest[j - 1], restCalls[j - 1]) == BundleOutcome(secrets, defs[j], calls[j])
        {
          StepsDoNotInterfere(secrets, defs, 0, j, calls[0], calls[j]);
        }
        if i :| 0 <= i < |rest| && BundleOutcome(t, rest[i], restCalls[i]).Failed? {
          assert BundleOutcome(secrets, defs[i + 1], calls[i + 1]).Failed?;
        }
        if i :| 0 <= i < |defs| && BundleOutcome(secrets, defs[i], calls[i]).Failed? {
          assert BundleOutcome(t, rest[i - 1], restCalls[i - 1]).Failed?;
        }
      }
    }
  }

  /** After a pass a bundle is up to date exactly if it was, or its populated CA was reached with working calls. */
  lemma CaughtUpExactly(secrets: Secrets, defs: seq<CADefinition>, calls: seq<Calls>, d: nat)
    requires |defs| == |calls| && d < |defs| && NamesApart(defs)
    ensures UpToDate(AfterBundles(secrets, defs, calls), defs[d]) <==>
            && Read(secrets, defs[d].secretName, CA_CERT) != []
            && (|| Read(secrets, defs[d].bundleSecretName, CURRENT) == Read(secrets, defs[d].secretName, CA_CERT)
                || (ReachesDefinition(secrets, defs, calls, d) && calls[d] == Calls(true, true, true)))
  {
    PassAtDefinition(secrets, defs, calls, d);
    BundleStepExactly(secrets, defs[d], calls[d]);
  }

  /** With populated CAs and working calls one pass publishes every rotation, and nothing is left to do. */
  lemma WorkingPassCatchesUp(secrets: Secrets, defs: seq<CADefinition>, calls: seq<Calls>)
    requires |defs| == |calls| && NamesApart(defs)
    requires forall i :: 0 <= i < |defs| ==>
               Read(secrets, defs[i].secretName, CA_CERT) != [] && calls[i] == Calls(true, true, true)
    ensures PassOutcome(secrets, defs, calls, []) == Done
    ensures forall d :: 0 <= d < |defs| ==> UpToDate(AfterBundles(secrets, defs, calls), defs[d])
  {
    DoneExactly(secrets, defs, calls, []);
    DoneMeansUpToDate(secrets, defs, calls);
  }

  /** The reasons of the definitions that are not ready, in order. */
  function NotReadyReasons(secrets: Secrets, defs: seq<CADefinition>, calls: seq<Calls>): seq<string>
    requires |defs| == |calls|
    decreases |defs|
  {
    if defs == [] then []
    else
      var o := BundleOutcome(secrets, defs[0], calls[0]);
      (if o.NotReady? then [o.reason] else []) + NotReadyReasons(secrets, defs[1..], calls[1..])
  }

  lemma {:induction false} ReasonsDependOnOutcomes(
    s: Secrets, t: Secrets, defs: seq<CADefinition>, calls: seq<Calls>)
    requires |defs| == |calls|
    requires forall j :: 0 <= j < |defs| ==>
               BundleOutcome(s, defs[j], calls[j]) == BundleOutcome(t, defs[j], calls[j])
    ensures NotReadyReasons(s, defs, calls) == NotReadyReasons(t, defs, calls)
    decreases |defs|
  {
    if defs != [] {
      ReasonsDependOnOutcomes(s, t, defs[1..], calls[1..]);
    }
  }

  lemma ReasonsSurviveStep(secrets: Secrets, defs: seq<CADefinition>, calls: seq<Calls>)
    requires |defs| == |calls| && NamesApart(defs) && defs != []
    ensures NotReadyReasons(AfterBundle(secrets, defs[0], calls[0]), defs[1..], calls[1..])
            == NotReadyReasons(secrets, defs[1..], calls[1..])
  {
    var t := AfterBundle(secrets, defs[0], calls[0]);
    forall j | 0 < j < |defs|
      ensures BundleOutcome(t, defs[j], calls[j]) == BundleOutcome(secrets, defs[j], calls[j])
    {
      StepsDoNotInterfere(secrets, defs, 0, j, calls[0], calls[j]);
    }
    ReasonsDependOnOutcomes(secrets, t, defs[1..], calls[1..]);
  }

  /** A pass in which no definition fails reports the reasons of those that are not ready, joined in order. */
  lemma {:induction false} PassWaitsExactly(
    secrets: Secrets, defs: seq<CADefinition>, calls: seq<Calls>, reasons: seq<string>)
    requires |defs| == |calls| && NamesApart(defs) && !PassOutcome(secrets, defs, calls, reasons).Failed?
    ensures var all := Join(reasons + NotReadyReasons(secrets, defs, calls));
            PassOutcome(secrets, defs, calls, reasons) == if all == "" then Done else NotReady(all)
    decreases |defs|
  {
    if defs == [] {
      assert reasons + [] == reasons;
    } else {
      var o := BundleOutcome(secrets, defs[0], calls[0]);
      var t := AfterBundle(secrets, defs[0], calls[0]);
      var more := if o.NotReady? then reasons + [o.reason] else reasons;
      var rest := NotReadyReasons(secrets, defs[1..], calls[1..]);
      ReasonsSurviveStep(secrets, defs, calls);
      PassWaitsExactly(t, defs[1..], calls[1..], more);
      AppendOptional(reasons, o.NotReady?, if o.NotReady? then o.reason else "", rest);
    }
  }
}

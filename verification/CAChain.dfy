/**
 * The CA certificates and the issuers they produce. A CA issuer exists only because its certificate was ready, and
 * the whole chain is up within a number of rounds given by its depth.
 */
module CAChain {
  import opened Common
  import opened CADefinitions

  /** An issuer signs itself, or signs with the CA in a secret. */
  datatype Issuer = Issuer(secret: Option<string>, ready: bool)
  datatype Certificate = Certificate(issuer: string, secret: string, ready: bool)
  datatype State = State(issuers: map<string, Issuer>, certificates: map<string, Certificate>)

  predicate IssuerReady(s: State, name: string) {
    name in s.issuers && s.issuers[name].ready
  }

  predicate CertificateReady(s: State, name: string) {
    name in s.certificates && s.certificates[name].ready
  }

  /** Server-side apply sets the spec and leaves the status, which a new object does not have. */
  function ApplyIssuer(s: State, name: string, secret: Option<string>): State {
    s.(issuers := s.issuers[name := Issuer(secret, IssuerReady(s, name))])
  }

  function ApplyCertificate(s: State, def: CADefinition): State {
    s.(certificates := s.certificates[def.certificateName :=
      Certificate(def.parentIssuerName, def.secretName, CertificateReady(s, def.certificateName))])
  }

  /** Which of a definition's API calls would succeed. */
  datatype Calls = Calls(certificate: bool, issuer: bool)

  function AfterCA(s: State, def: CADefinition, calls: Calls): State {
    if !calls.certificate then s
    else if CertificateReady(s, def.certificateName) && calls.issuer then
      ApplyIssuer(ApplyCertificate(s, def), def.issuerName, Some(def.secretName))
    else ApplyCertificate(s, def)
  }

  function CAOutcome(s: State, def: CADefinition, calls: Calls): Outcome {
    if !calls.certificate then Failed("failed to reconcile certificate")
    else if !CertificateReady(s, def.certificateName) then NotReady(def.kind + " certificate not ready")
    else if !calls.issuer then Failed("failed to patch issuer")
    else if !IssuerReady(s, def.issuerName) then NotReady(def.kind + " issuer not ready")
    else Done
  }

  function AfterCAs(s: State, defs: seq<CADefinition>, calls: seq<Calls>): State
    requires |defs| == |calls|
    decreases |defs|
  {
    if defs == [] then s
    else
      var t := AfterCA(s, defs[0], calls[0]);
      if CAOutcome(s, defs[0], calls[0]).Failed? then t else AfterCAs(t, defs[1..], calls[1..])
  }

  function CAsOutcome(s: State, defs: seq<CADefinition>, calls: seq<Calls>, reasons: seq<string>): Outcome
    requires |defs| == |calls|
    decreases |defs|
  {
    if defs == [] then (if Join(reasons) == "" then Done else NotReady(Join(reasons)))
    else
      var o := CAOutcome(s, defs[0], calls[0]);
      if o.Failed? then o
      else CAsOutcome(AfterCA(s, defs[0], calls[0]), defs[1..], calls[1..],
                      if o.NotReady? then reasons + [o.reason] else reasons)
  }

  datatype PassCalls = PassCalls(root: bool, definitions: seq<Calls>)

  function AfterPass(s: State, root: string, defs: seq<CADefinition>, calls: PassCalls): State
    requires |calls.definitions| == |defs|
  {
    if !calls.root then s
    else if !IssuerReady(s, root) then ApplyIssuer(s, root, None)
    else AfterCAs(ApplyIssuer(s, root, None), defs, calls.definitions)
  }

  function PassOutcome(s: State, root: string, defs: seq<CADefinition>, calls: PassCalls): Outcome
    requires |calls.definitions| == |defs|
  {
    if !calls.root then Failed("failed to patch self-signed issuer")
    else if !IssuerReady(s, root) then NotReady("root issuer not ready")
    else CAsOutcome(ApplyIssuer(s, root, None), defs, calls.definitions, [])
  }

  class Namespace {
    var state: State

    constructor (s: State)
      ensures state == s
    {
      state := s;
    }

    method ReconcileCA(def: CADefinition, calls: Calls) returns (o: Outcome)
      modifies this
      ensures state == AfterCA(old(state), def, calls)
      ensures o == CAOutcome(old(state), def, calls)
    {
      if !calls.certificate {
        return Failed("failed to reconcile certificate");
      }
      state := ApplyCertificate(state, def);
      if !state.certificates[def.certificateName].ready {
        return NotReady(def.kind + " certificate not ready");
      }
      if !calls.issuer {
        return Failed("failed to patch issuer");
      }
      state := ApplyIssuer(state, def.issuerName, Some(state.certificates[def.certificateName].secret));
      if !state.issuers[def.issuerName].ready {
        return NotReady(def.kind + " issuer not ready");
      }
      return Done;
    }

    method ReconcileCACertificates(root: string, defs: seq<CADefinition>, calls: PassCalls) returns (o: Outcome)
      requires |calls.definitions| == |defs|
      modifies this
      ensures state == AfterPass(old(state), root, defs, calls)
      ensures o == PassOutcome(old(state), root, defs, calls)
    {
      if !calls.root {
        return Failed("failed to patch self-signed issuer");
      }
      state := ApplyIssuer(state, root, None);
      if !state.issuers[root].ready {
        return NotReady("root issuer not ready");
      }
      ghost var start := state;
      var reasons: seq<string> := [];
      for i := 0 to |defs|
        invariant AfterCAs(state, defs[i..], calls.definitions[i..]) == AfterCAs(start, defs, calls.definitions)
        invariant CAsOutcome(state, defs[i..], calls.definitions[i..], reasons)
                  == CAsOutcome(start, defs, calls.definitions, [])
      {
        o := ReconcileCA(defs[i], calls.definitions[i]);
        assert defs[i..][1..] == defs[i + 1..] && calls.definitions[i..][1..] == calls.definitions[i + 1..];
        if o.Failed? {
          return;
        }
        if o.NotReady? {
          reasons := reasons + [o.reason];
        }
      }
      return if Join(reasons) == "" then Done else NotReady(Join(reasons));
    }
  }

  // ---------------------------------------------------------------- one pass

  /** The certificate has the definition's spec and is ready. */
  ghost predicate CertificateOk(s: State, def: CADefinition) {
    def.certificateName in s.certificates &&
    s.certificates[def.certificateName] == Certificate(def.parentIssuerName, def.secretName, true)
  }

  ghost predicate IssuerOk(s: State, def: CADefinition) {
    def.issuerName in s.issuers && s.issuers[def.issuerName] == Issuer(Some(def.secretName), true)
  }

  ghost predicate RootOk(s: State, root: string) {
    root in s.issuers && s.issuers[root] == Issuer(None, true)
  }

  ghost predicate Distinct(root: string, defs: seq<CADefinition>) {
    NamesApart(defs) && SignedByEarlier(defs, root)
  }

  /** No pass changes a status, removes anything or spoils what is right. */
  ghost predicate Keeps(s: State, t: State, root: string, defs: seq<CADefinition>) {
    && (forall n :: IssuerReady(s, n) <==> IssuerReady(t, n))
    && (forall n :: CertificateReady(s, n) <==> CertificateReady(t, n))
    && (forall n :: n in s.issuers ==> n in t.issuers)
    && (RootOk(s, root) ==> RootOk(t, root))
    && (forall i :: 0 <= i < |defs| && CertificateOk(s, defs[i]) ==> CertificateOk(t, defs[i]))
    && (forall i :: 0 <= i < |defs| && IssuerOk(s, defs[i]) ==> IssuerOk(t, defs[i]))
  }

  lemma CAKeeps(s: State, root: string, defs: seq<CADefinition>, d: nat, calls: Calls)
    requires d < |defs| && Distinct(root, defs)
    ensures Keeps(s, AfterCA(s, defs[d], calls), root, defs)
  {
  }

  lemma {:induction false} CAsKeep(s: State, root: string, defs: seq<CADefinition>, calls: seq<Calls>, d: nat)
    requires d <= |defs| == |calls| && Distinct(root, defs)
    ensures Keeps(s, AfterCAs(s, defs[d..], calls[d..]), root, defs)
    decreases |defs| - d
  {
    if d < |defs| {
      CAKeeps(s, root, defs, d, calls[d]);
      assert defs[d..][1..] == defs[d + 1..] && calls[d..][1..] == calls[d + 1..];
      CAsKeep(AfterCA(s, defs[d], calls[d]), root, defs, calls, d + 1);
    }
  }

  lemma PassKeeps(s: State, root: string, defs: seq<CADefinition>, calls: PassCalls)
    requires |calls.definitions| == |defs| && Distinct(root, defs)
    ensures Keeps(s, AfterPass(s, root, defs, calls), root, defs)
  {
    if calls.root {
      var t := ApplyIssuer(s, root, None);
      assert Keeps(s, t, root, defs);
      CAsKeep(t, root, defs, calls.definitions, 0);
      assert defs[0..] == defs && calls.definitions[0..] == calls.definitions;
    }
  }

  function Working(defs: seq<CADefinition>): PassCalls {
    PassCalls(true, seq(|defs|, _ => Calls(true, true)))
  }

  /** A working pass that gets past the root issuer applies every certificate, and every issuer of a ready one. */
  ghost predicate Applied(s: State, t: State, def: CADefinition) {
    && def.certificateName in t.certificates
    && t.certificates[def.certificateName] ==
       Certificate(def.parentIssuerName, def.secretName, CertificateReady(s, def.certificateName))
    && (CertificateReady(s, def.certificateName) ==>
          (&& def.issuerName in t.issuers
           && t.issuers[def.issuerName] == Issuer(Some(def.secretName), IssuerReady(s, def.issuerName))))
  }

  lemma {:induction false} CAsStay(s: State, defs: seq<CADefinition>, calls: seq<Calls>, d: nat, def: CADefinition)
    requires d <= |defs| == |calls|
    requires forall i :: d <= i < |defs| ==>
               defs[i].certificateName != def.certificateName && defs[i].issuerName != def.issuerName
    ensures var t := AfterCAs(s, defs[d..], calls[d..]);
            && (def.certificateName in s.certificates ==> (def.certificateName in t.certificates
                && t.certificates[def.certificateName] == s.certificates[def.certificateName]))
            && (def.issuerName in s.issuers <==> def.issuerName in t.issuers)
            && (def.issuerName in s.issuers ==> t.issuers[def.issuerName] == s.issuers[def.issuerName])
    decreases |defs| - d
  {
    if d < |defs| {
      assert defs[d..][1..] == defs[d + 1..] && calls[d..][1..] == calls[d + 1..];
      CAsStay(AfterCA(s, defs[d], calls[d]), defs, calls, d + 1, def);
    }
  }

  lemma {:induction false} WorkingCAsApply(s: State, root: string, defs: seq<CADefinition>, d: nat, i: nat)
    requires d <= i < |defs| && Distinct(root, defs)
    ensures Applied(s, AfterCAs(s, defs[d..], Working(defs).definitions[d..]), defs[i])
    decreases |defs| - d
  {
    var calls := Working(defs).definitions;
    assert defs[d..][1..] == defs[d + 1..] && calls[d..][1..] == calls[d + 1..];
    var t := AfterCA(s, defs[d], calls[d]);
    if d == i {
      CAsStay(t, defs, calls, d + 1, defs[i]);
    } else {
      CAKeeps(s, root, defs, d, calls[d]);
      WorkingCAsApply(t, root, defs, d + 1, i);
    }
  }

  lemma {:induction false} CAsDoneExactly(
    s: State, root: string, defs: seq<CADefinition>, d: nat, reasons: seq<string>)
    requires d <= |defs| && Distinct(root, defs) && "" !in reasons
    ensures CAsOutcome(s, defs[d..], Working(defs).definitions[d..], reasons) == Done <==>
            && reasons == []
            && forall i :: d <= i < |defs| ==>
                 CertificateReady(s, defs[i].certificateName) && IssuerReady(s, defs[i].issuerName)
    decreases |defs| - d
  {
    if d == |defs| {
      JoinIsEmptyIff(reasons);
    } else {
      var calls := Working(defs).definitions;
      assert defs[d..][1..] == defs[d + 1..] && calls[d..][1..] == calls[d + 1..];
      var o := CAOutcome(s, defs[d], calls[d]);
      CAKeeps(s, root, defs, d, calls[d]);
      var more := if o.NotReady? then reasons + [o.reason] else reasons;
      CAsDoneExactly(AfterCA(s, defs[d], calls[d]), root, defs, d + 1, more);
    }
  }

  ghost predicate AllReady(s: State, root: string, defs: seq<CADefinition>) {
    && IssuerReady(s, root)
    && forall i :: 0 <= i < |defs| ==>
         CertificateReady(s, defs[i].certificateName) && IssuerReady(s, defs[i].issuerName)
  }

  /** A working pass reports nothing to wait for exactly when every issuer and every CA certificate is ready. */
  lemma DoneExactly(s: State, root: string, defs: seq<CADefinition>)
    requires Distinct(root, defs)
    ensures PassOutcome(s, root, defs, Working(defs)) == Done <==> AllReady(s, root, defs)
  {
    var t := ApplyIssuer(s, root, None);
    CAsDoneExactly(t, root, defs, 0, []);
    assert defs[0..] == defs && Working(defs).definitions[0..] == Working(defs).definitions;
  }

  /** One definition, for any calls: the certificate is applied, and the issuer only for a ready certificate. */
  lemma CAStepExactly(s: State, def: CADefinition, calls: Calls)
    ensures var t := AfterCA(s, def, calls);
            && (forall n :: n != def.certificateName ==>
                  (n in t.certificates <==> n in s.certificates)
                  && (n in s.certificates ==> t.certificates[n] == s.certificates[n]))
            && (forall n :: n != def.issuerName ==>
                  (n in t.issuers <==> n in s.issuers) && (n in s.issuers ==> t.issuers[n] == s.issuers[n]))
            && (calls.certificate ==>
                  def.certificateName in t.certificates && t.certificates[def.certificateName] ==
                  Certificate(def.parentIssuerName, def.secretName, CertificateReady(s, def.certificateName)))
            && (calls.certificate && calls.issuer && CertificateReady(s, def.certificateName) ==>
                  def.issuerName in t.issuers && t.issuers[def.issuerName] ==
                  Issuer(Some(def.secretName), IssuerReady(s, def.issuerName)))
            && (!calls.certificate ==> t == s)
            && (!calls.issuer || !CertificateReady(s, def.certificateName) ==> t.issuers == s.issuers)
  {
  }

  /** For any calls, nothing is left to wait for exactly if every call works and everything is ready. */
  lemma {:induction false} CAsDoneForCalls(
    s: State, root: string, defs: seq<CADefinition>, calls: seq<Calls>, d: nat, reasons: seq<string>)
    requires d <= |defs| == |calls| && Distinct(root, defs) && "" !in reasons
    ensures CAsOutcome(s, defs[d..], calls[d..], reasons) == Done <==>
            && reasons == []
            && forall i :: d <= i < |defs| ==>
                 && calls[i] == Calls(true, true)
                 && CertificateReady(s, defs[i].certificateName) && IssuerReady(s, defs[i].issuerName)
    decreases |defs| - d
  {
    if d == |defs| {
      JoinIsEmptyIff(reasons);
    } else {
      assert defs[d..][1..] == defs[d + 1..] && calls[d..][1..] == calls[d + 1..];
      var o := CAOutcome(s, defs[d], calls[d]);
      CAKeeps(s, root, defs, d, calls[d]);
      var more := if o.NotReady? then reasons + [o.reason] else reasons;
      CAsDoneForCalls(AfterCA(s, defs[d], calls[d]), root, defs, calls, d + 1, more);
    }
  }

  lemma DoneForCallsExactly(s: State, root: string, defs: seq<CADefinition>, calls: PassCalls)
    requires Distinct(root, defs) && |calls.definitions| == |defs|
    ensures PassOutcome(s, root, defs, calls) == Done <==> calls == Working(defs) && AllReady(s, root, defs)
  {
    CAsDoneForCalls(ApplyIssuer(s, root, None), root, defs, calls.definitions, 0, []);
    assert defs[0..] == defs && calls.definitions[0..] == calls.definitions;
    assert calls.definitions == Working(defs).definitions
           <==> forall i :: 0 <= i < |defs| ==> calls.definitions[i] == Calls(true, true);
  }

  /** One definition reports an error exactly for a failing call that it makes. */
  lemma CAFailsExactly(s: State, def: CADefinition, calls: Calls)
    ensures CAOutcome(s, def, calls).Failed? <==>
            !calls.certificate || (CertificateReady(s, def.certificateName) && !calls.issuer)
    ensures CAOutcome(s, def, calls) == Done <==>
            && calls == Calls(true, true)
            && CertificateReady(s, def.certificateName) && IssuerReady(s, def.issuerName)
    ensures CAOutcome(s, def, calls).NotReady? ==>
              CAOutcome(s, def, calls).reason ==
              def.kind +
              if CertificateReady(s, def.certificateName) then " issuer not ready" else " certificate not ready"
  {
  }

  // ---------------------------------------------------------------- safety

  /** A pass creates a CA issuer only if its certificate is ready, and was before the pass. */
  lemma {:induction false} CreatedIssuerHasReadyCertificate(
    s: State, root: string, defs: seq<CADefinition>, calls: seq<Calls>, d: nat, i: nat)
    requires d <= |defs| == |calls| && i < |defs| && Distinct(root, defs)
    requires defs[i].issuerName !in s.issuers
    requires defs[i].issuerName in AfterCAs(s, defs[d..], calls[d..]).issuers
    ensures CertificateReady(s, defs[i].certificateName)
    decreases |defs| - d
  {
    assert d < |defs|;
    var t := AfterCA(s, defs[d], calls[d]);
    assert defs[d..][1..] == defs[d + 1..] && calls[d..][1..] == calls[d + 1..];
    if d != i {
      StepLeavesOther(s, root, defs, d, i, calls[d], calls[i]);
    }
    if defs[i].issuerName !in t.issuers {
      CreatedIssuerHasReadyCertificate(t, root, defs, calls, d + 1, i);
    }
  }

  /** Between two passes cert-manager and anyone else may do anything but create a CA issuer. */
  datatype Round = Round(calls: PassCalls, after: State)

  ghost predicate NoForeignIssuers(s: State, rounds: seq<Round>, root: string, defs: seq<CADefinition>)
    decreases |rounds|
  {
    rounds != [] ==>
    && |rounds[0].calls.definitions| == |defs|
    && rounds[0].after.issuers.Keys <= AfterPass(s, root, defs, rounds[0].calls).issuers.Keys
    && NoForeignIssuers(rounds[0].after, rounds[1..], root, defs)
  }

  function Before(s: State, rounds: seq<Round>, k: nat): State
    requires k <= |rounds|
  {
    if k == 0 then s else rounds[k - 1].after
  }

  /** An issuer that exists after a run, and did not before, was created in a pass whose certificate was ready. */
  lemma {:induction false} IssuerWasEarned(
    s: State, rounds: seq<Round>, root: string, defs: seq<CADefinition>, i: nat) returns (k: nat)
    requires i < |defs| && Distinct(root, defs) && NoForeignIssuers(s, rounds, root, defs)
    requires defs[i].issuerName !in s.issuers
    requires defs[i].issuerName in Before(s, rounds, |rounds|).issuers
    ensures k < |rounds| && |rounds[k].calls.definitions| == |defs|
    ensures var before := Before(s, rounds, k);
            && defs[i].issuerName !in before.issuers
            && defs[i].issuerName in AfterPass(before, root, defs, rounds[k].calls).issuers
            && CertificateReady(before, defs[i].certificateName)
    decreases |rounds|
  {
    var t := AfterPass(s, root, defs, rounds[0].calls);
    if defs[i].issuerName in t.issuers {
      var rooted := ApplyIssuer(s, root, None);
      assert defs[0..] == defs && rounds[0].calls.definitions[0..] == rounds[0].calls.definitions;
      CreatedIssuerHasReadyCertificate(rooted, root, defs, rounds[0].calls.definitions, 0, i);
      k := 0;
    } else {
      var rest := IssuerWasEarned(rounds[0].after, rounds[1..], root, defs, i);
      assert Before(rounds[0].after, rounds[1..], rest) == Before(s, rounds, rest + 1);
      k := rest + 1;
    }
  }

  // ---------------------------------------------------------------- progress

  ghost predicate Issuable(s: State, name: string) {
    && name in s.certificates
    && IssuerReady(s, s.certificates[name].issuer)
  }

  /** An issuer can become ready when it signs itself or a ready certificate filled its secret. */
  ghost predicate Usable(s: State, name: string) {
    && name in s.issuers
    && match s.issuers[name].secret
       case None => true
       case Some(secret) =>
         exists c :: c in s.certificates && s.certificates[c].secret == secret && s.certificates[c].ready
  }

  /** cert-manager between two passes: it touches status only, readies at least what can be, and takes nothing back. */
  ghost predicate CertManagerWorks(s: State, t: State) {
    && s.issuers.Keys == t.issuers.Keys && s.certificates.Keys == t.certificates.Keys
    && (forall n :: n in s.issuers ==>
          t.issuers[n].secret == s.issuers[n].secret && (s.issuers[n].ready || Usable(s, n) ==> t.issuers[n].ready))
    && (forall n :: n in s.certificates ==>
          && t.certificates[n] == s.certificates[n].(ready := t.certificates[n].ready)
          && (s.certificates[n].ready || Issuable(s, n) ==> t.certificates[n].ready))
  }

  ghost predicate IsRun(s: State, rounds: seq<Round>, root: string, defs: seq<CADefinition>)
    decreases |rounds|
  {
    rounds != [] ==>
    && |rounds[0].calls.definitions| == |defs|
    && CertManagerWorks(AfterPass(s, root, defs, rounds[0].calls), rounds[0].after)
    && IsRun(rounds[0].after, rounds[1..], root, defs)
  }

  /** How many rounds had no failing call. */
  ghost function WorkingRounds(rounds: seq<Round>, defs: seq<CADefinition>): nat
    decreases |rounds|
  {
    if rounds == [] then 0
    else (if rounds[0].calls == Working(defs) then 1 else 0) + WorkingRounds(rounds[1..], defs)
  }

  ghost predicate IsParent(defs: seq<CADefinition>, j: nat, i: nat) {
    j < i < |defs| && defs[j].issuerName == defs[i].parentIssuerName
  }

  ghost function Parent(defs: seq<CADefinition>, root: string, i: nat): (j: nat)
    requires i < |defs| && SignedByEarlier(defs, root) && defs[i].parentIssuerName != root
    ensures IsParent(defs, j, i)
  {
    var j :| 0 <= j < i && defs[j].issuerName == defs[i].parentIssuerName;
    j
  }

  /** Distance from the root issuer. */
  ghost function Level(defs: seq<CADefinition>, root: string, i: nat): (l: nat)
    requires i < |defs| && SignedByEarlier(defs, root)
    ensures l >= 1
  {
    if defs[i].parentIssuerName == root then 1 else 1 + Level(defs, root, Parent(defs, root, i))
  }

  /** What k working rounds bring about: certificates of level l after round 2l, their issuers one round later. */
  ghost predicate Progress(s: State, root: string, defs: seq<CADefinition>, k: nat)
    requires SignedByEarlier(defs, root)
  {
    && (k >= 1 ==> RootOk(s, root))
    && (forall i :: 0 <= i < |defs| && 2 * Level(defs, root, i) <= k ==> CertificateOk(s, defs[i]))
    && (forall i :: 0 <= i < |defs| && 2 * Level(defs, root, i) + 1 <= k ==> IssuerOk(s, defs[i]))
  }

  lemma CertManagerKeepsProgress(s: State, t: State, root: string, defs: seq<CADefinition>, k: nat)
    requires SignedByEarlier(defs, root) && CertManagerWorks(s, t) && Progress(s, root, defs, k)
    ensures Progress(t, root, defs, k)
  {
    forall i | 0 <= i < |defs| && 2 * Level(defs, root, i) <= k
      ensures CertificateOk(t, defs[i])
    {
      assert CertificateOk(s, defs[i]);
    }
    forall i | 0 <= i < |defs| && 2 * Level(defs, root, i) + 1 <= k
      ensures IssuerOk(t, defs[i])
    {
      assert IssuerOk(s, defs[i]);
    }
  }

  lemma RoundKeepsProgress(s: State, round: Round, root: string, defs: seq<CADefinition>, k: nat)
    requires Distinct(root, defs) && |round.calls.definitions| == |defs| && Progress(s, root, defs, k)
    requires CertManagerWorks(AfterPass(s, root, defs, round.calls), round.after)
    ensures Progress(round.after, root, defs, k)
  {
    PassKeeps(s, root, defs, round.calls);
    CertManagerKeepsProgress(AfterPass(s, root, defs, round.calls), round.after, root, defs, k);
  }

  /** In a working round the certificate of a definition becomes ready if its parent was. */
  lemma CertificateAdvances(s: State, t: State, u: State, root: string, defs: seq<CADefinition>, i: nat)
    requires i < |defs| && Distinct(root, defs)
    requires Keeps(s, t, root, defs) && Applied(s, t, defs[i]) && CertManagerWorks(t, u)
    requires IssuerReady(s, defs[i].parentIssuerName)
    ensures CertificateOk(u, defs[i])
  {
    assert IssuerReady(t, defs[i].parentIssuerName);
    assert Issuable(t, defs[i].certificateName);
  }

  lemma IssuerAdvances(s: State, t: State, u: State, root: string, defs: seq<CADefinition>, i: nat)
    requires i < |defs| && Distinct(root, defs)
    requires Keeps(s, t, root, defs) && Applied(s, t, defs[i]) && CertManagerWorks(t, u)
    requires CertificateOk(s, defs[i])
    ensures IssuerOk(u, defs[i])
  {
    assert t.certificates[defs[i].certificateName].secret == defs[i].secretName;
    assert Usable(t, defs[i].issuerName);
  }

  lemma ParentReady(s: State, root: string, defs: seq<CADefinition>, k: nat, i: nat)
    requires i < |defs| && Distinct(root, defs) && k >= 1 && Progress(s, root, defs, k)
    requires 2 * Level(defs, root, i) <= k + 1
    ensures IssuerReady(s, defs[i].parentIssuerName)
  {
    if defs[i].parentIssuerName != root {
      assert IssuerOk(s, defs[Parent(defs, root, i)]);
    }
  }

  lemma WorkingPassApplies(s: State, root: string, defs: seq<CADefinition>, i: nat)
    requires Distinct(root, defs) && i < |defs| && IssuerReady(s, root)
    ensures Applied(s, AfterPass(s, root, defs, Working(defs)), defs[i])
  {
    var rooted := ApplyIssuer(s, root, None);
    assert Keeps(s, rooted, root, defs);
    assert defs[0..] == defs && Working(defs).definitions[0..] == Working(defs).definitions;
    WorkingCAsApply(rooted, root, defs, 0, i);
  }

  lemma RootAdvances(s: State, u: State, root: string, defs: seq<CADefinition>)
    requires Distinct(root, defs) && CertManagerWorks(AfterPass(s, root, defs, Working(defs)), u)
    ensures RootOk(u, root)
  {
    var t := AfterPass(s, root, defs, Working(defs));
    if !IssuerReady(s, root) {
      assert Usable(t, root);
    }
    RootApplied(s, root, defs, Working(defs));
  }

  lemma WorkingRoundAdvances(s: State, round: Round, root: string, defs: seq<CADefinition>, k: nat)
    requires Distinct(root, defs) && round.calls == Working(defs) && Progress(s, root, defs, k)
    requires CertManagerWorks(AfterPass(s, root, defs, round.calls), round.after)
    ensures Progress(round.after, root, defs, k + 1)
  {
    var t := AfterPass(s, root, defs, round.calls);
    var u := round.after;
    PassKeeps(s, root, defs, round.calls);
    RootAdvances(s, u, root, defs);
    forall i | 0 <= i < |defs| && 2 * Level(defs, root, i) <= k + 1
      ensures CertificateOk(u, defs[i])
    {
      WorkingPassApplies(s, root, defs, i);
      ParentReady(s, root, defs, k, i);
      CertificateAdvances(s, t, u, root, defs, i);
    }
    forall i | 0 <= i < |defs| && 2 * Level(defs, root, i) + 1 <= k + 1
      ensures IssuerOk(u, defs[i])
    {
      WorkingPassApplies(s, root, defs, i);
      IssuerAdvances(s, t, u, root, defs, i);
    }
  }

  lemma RootApplied(s: State, root: string, defs: seq<CADefinition>, calls: PassCalls)
    requires Distinct(root, defs) && calls.root && |calls.definitions| == |defs|
    ensures var t := AfterPass(s, root, defs, calls);
            root in t.issuers && t.issuers[root] == Issuer(None, IssuerReady(s, root))
  {
    var rooted := ApplyIssuer(s, root, None);
    CAsKeep(rooted, root, defs, calls.definitions, 0);
    assert defs[0..] == defs && calls.definitions[0..] == calls.definitions;
  }

  lemma {:induction false} RunProgress(s: State, rounds: seq<Round>, root: string, defs: seq<CADefinition>, k: nat)
    requires Distinct(root, defs) && IsRun(s, rounds, root, defs) && Progress(s, root, defs, k)
    ensures Progress(Before(s, rounds, |rounds|), root, defs, k + WorkingRounds(rounds, defs))
    decreases |rounds|
  {
    if rounds != [] {
      var u := rounds[0].after;
      assert Before(u, rounds[1..], |rounds| - 1) == Before(s, rounds, |rounds|);
      if rounds[0].calls == Working(defs) {
        WorkingRoundAdvances(s, rounds[0], root, defs, k);
        RunProgress(u, rounds[1..], root, defs, k + 1);
      } else {
        RoundKeepsProgress(s, rounds[0], root, defs, k);
        RunProgress(u, rounds[1..], root, defs, k);
      }
    }
  }

  /**
   * From any objects, after 2 * depth + 1 rounds without a failing call, however many failing ones lie between,
   * the next working pass reports nothing to wait for.
   */
  lemma ChainComesUp(s: State, rounds: seq<Round>, root: string, defs: seq<CADefinition>, depth: nat)
    requires Distinct(root, defs) && IsRun(s, rounds, root, defs)
    requires forall i :: 0 <= i < |defs| ==> Level(defs, root, i) <= depth
    requires WorkingRounds(rounds, defs) >= 2 * depth + 1
    ensures PassOutcome(Before(s, rounds, |rounds|), root, defs, Working(defs)) == Done
  {
    var t := Before(s, rounds, |rounds|);
    RunProgress(s, rounds, root, defs, 0);
    forall i | 0 <= i < |defs|
      ensures CertificateOk(t, defs[i]) && IssuerOk(t, defs[i])
    {
      assert 2 * Level(defs, root, i) + 1 <= WorkingRounds(rounds, defs);
    }
    DoneExactly(t, root, defs);
  }

  /** The control plane's own CAs are two deep: the sixth working pass at the latest is done. */
  lemma ControlPlaneComesUp(cluster: string, s: State, rounds: seq<Round>)
    requires IsRun(s, rounds, RootIssuerName(cluster), DefinitionsOf(cluster))
    requires WorkingRounds(rounds, DefinitionsOf(cluster)) >= 5
    ensures PassOutcome(Before(s, rounds, |rounds|), RootIssuerName(cluster), DefinitionsOf(cluster),
                        Working(DefinitionsOf(cluster))) == Done
  {
    var defs := DefinitionsOf(cluster);
    var root := RootIssuerName(cluster);
    DefinitionsAreWellFormed(cluster);
    assert Level(defs, root, 0) == 1;
    forall i | 0 <= i < |defs|
      ensures Level(defs, root, i) <= 2
    {
      if i > 0 && defs[i].parentIssuerName != root {
        assert Level(defs, root, i) == 1 + Level(defs, root, Parent(defs, root, i));
      }
    }
    ChainComesUp(s, rounds, root, defs, 2);
  }

  // ---------------------------------------------------------------- nothing comes up out of order

  /** A certificate can only have become ready through its issuer as it stood in s. */
  ghost predicate SignsHonestly(s: State, t: State) {
    && s.issuers.Keys == t.issuers.Keys && s.certificates.Keys == t.certificates.Keys
    && forall n :: n in s.certificates ==>
         && t.certificates[n].issuer == s.certificates[n].issuer
         && (t.certificates[n].ready ==> s.certificates[n].ready || Issuable(s, n))
  }

  ghost predicate IsHonestRun(s: State, rounds: seq<Round>, root: string, defs: seq<CADefinition>)
    decreases |rounds|
  {
    rounds != [] ==>
    && |rounds[0].calls.definitions| == |defs|
    && SignsHonestly(AfterPass(s, root, defs, rounds[0].calls), rounds[0].after)
    && IsHonestRun(rounds[0].after, rounds[1..], root, defs)
  }

  /** After k rounds nothing beyond the k-th step of the chain can exist; what signs exists before what is signed. */
  ghost predicate InOrder(s: State, root: string, defs: seq<CADefinition>, k: nat)
    requires SignedByEarlier(defs, root)
  {
    && (root in s.issuers ==> k >= 1)
    && (forall i :: 0 <= i < |defs| && defs[i].certificateName in s.certificates ==>
          s.certificates[defs[i].certificateName].issuer == defs[i].parentIssuerName)
    && (forall i :: 0 <= i < |defs| && CertificateReady(s, defs[i].certificateName) ==>
          2 * Level(defs, root, i) <= k && defs[i].parentIssuerName in s.issuers)
    && (forall i :: 0 <= i < |defs| && defs[i].issuerName in s.issuers ==>
          2 * Level(defs, root, i) + 1 <= k && defs[i].parentIssuerName in s.issuers)
  }

  lemma {:induction false} CAsSpecs(s: State, root: string, defs: seq<CADefinition>, calls: seq<Calls>, d: nat, i: nat)
    requires d <= |defs| == |calls| && i < |defs| && Distinct(root, defs)
    requires defs[i].certificateName in s.certificates ==>
               s.certificates[defs[i].certificateName].issuer == defs[i].parentIssuerName
    ensures var t := AfterCAs(s, defs[d..], calls[d..]);
            defs[i].certificateName in t.certificates ==>
              t.certificates[defs[i].certificateName].issuer == defs[i].parentIssuerName
    decreases |defs| - d
  {
    if d < |defs| {
      assert defs[d..][1..] == defs[d + 1..] && calls[d..][1..] == calls[d + 1..];
      CAsSpecs(AfterCA(s, defs[d], calls[d]), root, defs, calls, d + 1, i);
    }
  }

  lemma PassInOrder(s: State, root: string, defs: seq<CADefinition>, calls: PassCalls, k: nat)
    requires Distinct(root, defs) && |calls.definitions| == |defs| && InOrder(s, root, defs, k)
    ensures InOrder(AfterPass(s, root, defs, calls), root, defs, k + 1)
  {
    var t := AfterPass(s, root, defs, calls);
    PassKeeps(s, root, defs, calls);
    var rooted := ApplyIssuer(s, root, None);
    assert defs[0..] == defs && calls.definitions[0..] == calls.definitions;
    forall i | 0 <= i < |defs| && defs[i].certificateName in t.certificates
      ensures t.certificates[defs[i].certificateName].issuer == defs[i].parentIssuerName
    {
      CAsSpecs(rooted, root, defs, calls.definitions, 0, i);
    }
    forall i | 0 <= i < |defs| && defs[i].issuerName in t.issuers
      ensures 2 * Level(defs, root, i) + 1 <= k + 1 && defs[i].parentIssuerName in t.issuers
    {
      if defs[i].issuerName !in s.issuers {
        CreatedIssuerHasReadyCertificate(rooted, root, defs, calls.definitions, 0, i);
      }
    }
  }

  lemma RoundInOrder(s: State, round: Round, root: string, defs: seq<CADefinition>, k: nat)
    requires Distinct(root, defs) && |round.calls.definitions| == |defs| && InOrder(s, root, defs, k)
    requires SignsHonestly(AfterPass(s, root, defs, round.calls), round.after)
    ensures InOrder(round.after, root, defs, k + 1)
  {
    var t := AfterPass(s, root, defs, round.calls);
    PassInOrder(s, root, defs, round.calls, k);
    PassKeeps(s, root, defs, round.calls);
    forall i | 0 <= i < |defs| && CertificateReady(round.after, defs[i].certificateName)
      ensures 2 * Level(defs, root, i) <= k + 1 && defs[i].parentIssuerName in round.after.issuers
    {
      if !CertificateReady(t, defs[i].certificateName) {
        assert IssuerReady(s, defs[i].parentIssuerName);
        if defs[i].parentIssuerName != root {
          assert defs[Parent(defs, root, i)].issuerName in s.issuers;
        }
      }
    }
  }

  lemma {:induction false} RunInOrder(s: State, rounds: seq<Round>, root: string, defs: seq<CADefinition>, k: nat)
    requires Distinct(root, defs) && IsHonestRun(s, rounds, root, defs) && InOrder(s, root, defs, k)
    ensures InOrder(Before(s, rounds, |rounds|), root, defs, k + |rounds|)
    decreases |rounds|
  {
    if rounds != [] {
      assert Before(rounds[0].after, rounds[1..], |rounds| - 1) == Before(s, rounds, |rounds|);
      RoundInOrder(s, rounds[0], root, defs, k);
      RunInOrder(rounds[0].after, rounds[1..], root, defs, k + 1);
    }
  }

  /**
   * From an empty namespace a CA issuer exists only beside the issuer that signed its certificate, and the reconcile
   * is not done before round 2 * level + 2 for any definition: the bound of `ChainComesUp` is exact.
   */
  lemma NothingComesUpEarly(rounds: seq<Round>, root: string, defs: seq<CADefinition>, i: nat)
    requires Distinct(root, defs) && i < |defs| && IsHonestRun(State(map[], map[]), rounds, root, defs)
    ensures var t := Before(State(map[], map[]), rounds, |rounds|);
            && (defs[i].issuerName in t.issuers ==> defs[i].parentIssuerName in t.issuers)
            && (|rounds| <= 2 * Level(defs, root, i) ==> PassOutcome(t, root, defs, Working(defs)) != Done)
  {
    RunInOrder(State(map[], map[]), rounds, root, defs, 0);
    DoneExactly(Before(State(map[], map[]), rounds, |rounds|), root, defs);
  }

  // ---------------------------------------------------------------- passes with failing calls

  /** The root issuer comes first: what a pass does and reports when it cannot get past it. */
  lemma RootExactly(s: State, root: string, defs: seq<CADefinition>, calls: PassCalls)
    requires |calls.definitions| == |defs|
    ensures var t := AfterPass(s, root, defs, calls);
            var o := PassOutcome(s, root, defs, calls);
            && (!calls.root ==> t == s && o.Failed?)
            && (calls.root && !IssuerReady(s, root) ==>
                  && t.certificates == s.certificates && t.issuers == s.issuers[root := Issuer(None, false)]
                  && o == NotReady("root issuer not ready"))
  {
  }

  /** No definition from number d to before number i fails. */
  predicate Reached(s: State, defs: seq<CADefinition>, calls: seq<Calls>, d: nat, i: nat)
    requires d <= i <= |defs| == |calls|
  {
    forall j :: d <= j < i ==> !CAOutcome(s, defs[j], calls[j]).Failed?
  }

  /** Each definition takes its own step, `CAStepExactly`, exactly if no earlier one fails. */
  lemma {:induction false} PassAtCA(s: State, root: string, defs: seq<CADefinition>, calls: seq<Calls>, d: nat, i: nat)
    requires d <= i < |defs| == |calls| && Distinct(root, defs)
    ensures var t := AfterCAs(s, defs[d..], calls[d..]);
            var own := if Reached(s, defs, calls, d, i) then AfterCA(s, defs[i], calls[i]) else s;
            && SameCertificate(t, own, defs[i].certificateName) && SameIssuer(t, own, defs[i].issuerName)
    decreases |defs| - d
  {
    assert defs[d..][1..] == defs[d + 1..] && calls[d..][1..] == calls[d + 1..];
    var t := AfterCA(s, defs[d], calls[d]);
    if d < i {
      StepLeavesOther(s, root, defs, d, i, calls[d], calls[i]);
    }
    if CAOutcome(s, defs[d], calls[d]).Failed? {
      assert d < i ==> !Reached(s, defs, calls, d, i);
    } else if d == i {
      CAsLeave(t, defs, calls, d + 1, defs[i]);
    } else {
      PassAtCA(t, root, defs, calls, d + 1, i);
      ReachedAfterStep(s, root, defs, calls, d, i);
    }
  }

  /** A step for one definition leaves another's objects and outcome alone. */
  lemma StepLeavesOther(
    s: State, root: string, defs: seq<CADefinition>, d: nat, i: nat, calls: Calls, other: Calls)
    requires d < |defs| && i < |defs| && d != i && Distinct(root, defs)
    ensures var t, name := AfterCA(s, defs[d], calls), defs[i].certificateName;
            && SameCertificate(t, s, name) && SameIssuer(t, s, defs[i].issuerName)
            && CAOutcome(t, defs[i], other) == CAOutcome(s, defs[i], other)
            && SameCertificate(AfterCA(t, defs[i], other), AfterCA(s, defs[i], other), name)
            && SameIssuer(AfterCA(t, defs[i], other), AfterCA(s, defs[i], other), defs[i].issuerName)
  {
  }

  lemma ReachedAfterStep(s: State, root: string, defs: seq<CADefinition>, calls: seq<Calls>, d: nat, i: nat)
    requires d < i <= |defs| == |calls| && Distinct(root, defs) && !CAOutcome(s, defs[d], calls[d]).Failed?
    ensures Reached(s, defs, calls, d, i) <==> Reached(AfterCA(s, defs[d], calls[d]), defs, calls, d + 1, i)
  {
    forall j | d < j < i
      ensures CAOutcome(AfterCA(s, defs[d], calls[d]), defs[j], calls[j]) == CAOutcome(s, defs[j], calls[j])
    {
      StepLeavesOther(s, root, defs, d, j, calls[d], calls[j]);
    }
  }

  ghost predicate SameCertificate(s: State, t: State, name: string) {
    (name in s.certificates <==> name in t.certificates)
    && (name in s.certificates ==> s.certificates[name] == t.certificates[name])
  }

  ghost predicate SameIssuer(s: State, t: State, name: string) {
    (name in s.issuers <==> name in t.issuers) && (name in s.issuers ==> s.issuers[name] == t.issuers[name])
  }

  lemma {:induction false} CAsLeave(s: State, defs: seq<CADefinition>, calls: seq<Calls>, d: nat, def: CADefinition)
    requires d <= |defs| == |calls|
    requires forall i :: d <= i < |defs| ==>
               defs[i].certificateName != def.certificateName && defs[i].issuerName != def.issuerName
    ensures var t := AfterCAs(s, defs[d..], calls[d..]);
            SameCertificate(t, s, def.certificateName) && SameIssuer(t, s, def.issuerName)
    decreases |defs| - d
  {
    if d < |defs| {
      assert defs[d..][1..] == defs[d + 1..] && calls[d..][1..] == calls[d + 1..];
      CAsLeave(AfterCA(s, defs[d], calls[d]), defs, calls, d + 1, def);
    }
  }

  /** The definitions fail exactly if one of them does. */
  lemma {:induction false} CAsFailExactly(
    s: State, root: string, defs: seq<CADefinition>, calls: seq<Calls>, d: nat, reasons: seq<string>)
    requires d <= |defs| == |calls| && Distinct(root, defs)
    ensures CAsOutcome(s, defs[d..], calls[d..], reasons).Failed? <==>
            exists i :: d <= i < |defs| && CAOutcome(s, defs[i], calls[i]).Failed?
    decreases |defs| - d
  {
    if d < |defs| {
      assert defs[d..][1..] == defs[d + 1..] && calls[d..][1..] == calls[d + 1..];
      var o := CAOutcome(s, defs[d], calls[d]);
      var t := AfterCA(s, defs[d], calls[d]);
      CAKeeps(s, root, defs, d, calls[d]);
      assert forall j :: d < j < |defs| ==> CAOutcome(t, defs[j], calls[j]) == CAOutcome(s, defs[j], calls[j]);
      CAsFailExactly(t, root, defs, calls, d + 1, if o.NotReady? then reasons + [o.reason] else reasons);
    }
  }

  /** The reasons of the definitions from number d on that are not ready, in order. */
  function WaitingReasons(s: State, defs: seq<CADefinition>, calls: seq<Calls>, d: nat): seq<string>
    requires d <= |defs| == |calls|
    decreases |defs| - d
  {
    if d == |defs| then []
    else
      var o := CAOutcome(s, defs[d], calls[d]);
      (if o.NotReady? then [o.reason] else []) + WaitingReasons(s, defs, calls, d + 1)
  }

  lemma {:induction false} WaitingReasonsDepend(
    s: State, t: State, defs: seq<CADefinition>, calls: seq<Calls>, d: nat)
    requires d <= |defs| == |calls|
    requires forall j :: d <= j < |defs| ==> CAOutcome(s, defs[j], calls[j]) == CAOutcome(t, defs[j], calls[j])
    ensures WaitingReasons(s, defs, calls, d) == WaitingReasons(t, defs, calls, d)
    decreases |defs| - d
  {
    if d < |defs| {
      WaitingReasonsDepend(s, t, defs, calls, d + 1);
    }
  }

  /** Where no definition fails, the reasons of those that are not ready are reported, joined in order. */
  lemma {:induction false} CAsWaitExactly(
    s: State, root: string, defs: seq<CADefinition>, calls: seq<Calls>, d: nat, reasons: seq<string>)
    requires d <= |defs| == |calls| && Distinct(root, defs)
    requires !CAsOutcome(s, defs[d..], calls[d..], reasons).Failed?
    ensures var all := Join(reasons + WaitingReasons(s, defs, calls, d));
            CAsOutcome(s, defs[d..], calls[d..], reasons) == if all == "" then Done else NotReady(all)
    decreases |defs| - d
  {
    if d == |defs| {
      assert reasons + [] == reasons;
    } else {
      assert defs[d..][1..] == defs[d + 1..] && calls[d..][1..] == calls[d + 1..];
      var o := CAOutcome(s, defs[d], calls[d]);
      var t := AfterCA(s, defs[d], calls[d]);
      var more := if o.NotReady? then reasons + [o.reason] else reasons;
      forall j | d < j < |defs|
        ensures CAOutcome(t, defs[j], calls[j]) == CAOutcome(s, defs[j], calls[j])
      {
        StepLeavesOther(s, root, defs, d, j, calls[d], calls[j]);
      }
      WaitingReasonsDepend(s, t, defs, calls, d + 1);
      CAsWaitExactly(t, root, defs, calls, d + 1, more);
      AppendOptional(reasons, o.NotReady?, if o.NotReady? then o.reason else "", WaitingReasons(s, defs, calls, d + 1));
    }
  }
}

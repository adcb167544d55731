/** The admission webhook of HostedControlPlane objects. */
module Admission {
  import opened Common

  const LOCAL_CLUSTER_OIDC_ENDPOINT := "https://kubernetes.default.svc.cluster.local"

  /** Two days, in seconds. */
  const DEFAULT_CA_DURATION := 2 * 24 * 3600

  /** Sizes are in bytes; an absent version is one that does not parse. */
  datatype EtcdSpec = EtcdSpec(autoGrow: Option<bool>, volumeSize: Option<int>, backup: bool) {
    predicate AutoGrowEnabled() {
      autoGrow.None? || autoGrow.value
    }

    predicate HasSize() {
      volumeSize.Some? && volumeSize.value != 0
    }
  }

  datatype Spec = Spec(
    version: Option<int>,
    etcd: EtcdSpec,
    oidcProviders: set<string>,
    rootCADuration: Option<int>,
    caDuration: Option<int>)

  function OrDefault(duration: Option<int>): int {
    if duration.Some? then duration.value else DEFAULT_CA_DURATION
  }

  datatype FieldError =
    | InvalidVersion
    | AutoGrowWithVolumeSize
    | NoAutoGrowWithoutVolumeSize
    | LocalIssuer
    | RootDurationTooShort

  /** The rule each error stands for. */
  predicate Violates(spec: Spec, e: FieldError) {
    match e
    case InvalidVersion => spec.version.None?
    case AutoGrowWithVolumeSize => spec.etcd.AutoGrowEnabled() && spec.etcd.HasSize()
    case NoAutoGrowWithoutVolumeSize => !spec.etcd.AutoGrowEnabled() && !spec.etcd.HasSize()
    case LocalIssuer => LOCAL_CLUSTER_OIDC_ENDPOINT in spec.oidcProviders
    case RootDurationTooShort => OrDefault(spec.rootCADuration) < OrDefault(spec.caDuration)
  }

  ghost predicate Admissible(spec: Spec) {
    forall e :: !Violates(spec, e)
  }

  /** Auto-grow and a fixed size exclude each other and one of them is always there. */
  lemma AdmissibleMode(spec: Spec)
    requires Admissible(spec)
    ensures spec.version.Some?
    ensures spec.etcd.AutoGrowEnabled() <==> !spec.etcd.HasSize()
  {
    assert !Violates(spec, InvalidVersion);
    assert !Violates(spec, AutoGrowWithVolumeSize);
    assert !Violates(spec, NoAutoGrowWithoutVolumeSize);
  }

  /** Which objects are admitted on creation, field by field; durations default to two days. */
  lemma AdmissibleExactly(spec: Spec)
    ensures Admissible(spec) <==>
            && spec.version.Some?
            && (spec.etcd.autoGrow == Some(false) <==> spec.etcd.volumeSize.Some? && spec.etcd.volumeSize != Some(0))
            && "https://kubernetes.default.svc.cluster.local" !in spec.oidcProviders
            && (match (spec.rootCADuration, spec.caDuration)
                case (Some(root), Some(ca)) => ca <= root
                case (Some(root), None) => root >= 172800
                case (None, Some(ca)) => ca <= 172800
                case (None, None) => true)
  {
    if Admissible(spec) {
      AdmissibleMode(spec);
      assert !Violates(spec, LocalIssuer) && !Violates(spec, RootDurationTooShort);
    } else {
      var e :| Violates(spec, e);
      match e
      case InvalidVersion =>
      case AutoGrowWithVolumeSize =>
      case NoAutoGrowWithoutVolumeSize =>
      case LocalIssuer =>
      case RootDurationTooShort =>
    }
  }

  method ValidateIssuers(issuers: set<string>) returns (fieldErrs: seq<FieldError>)
    ensures fieldErrs == if LOCAL_CLUSTER_OIDC_ENDPOINT in issuers then [LocalIssuer] else []
  {
    fieldErrs := [];
    var todo := issuers;
    while todo != {}
      invariant todo <= issuers
      invariant fieldErrs == if LOCAL_CLUSTER_OIDC_ENDPOINT in issuers - todo then [LocalIssuer] else []
      decreases |todo|
    {
      var issuer :| issuer in todo;
      todo := todo - {issuer};
      if issuer == LOCAL_CLUSTER_OIDC_ENDPOINT {
        fieldErrs := fieldErrs + [LocalIssuer];
      }
    }
  }

  method ValidateCreate(spec: Spec) returns (fieldErrs: seq<FieldError>)
    ensures forall e :: e in fieldErrs <==> Violates(spec, e)
    ensures forall i, j :: 0 <= i < j < |fieldErrs| ==> fieldErrs[i] != fieldErrs[j]
    ensures fieldErrs == [] <==> Admissible(spec)
  {
    fieldErrs := [];
    if spec.version.None? {
      fieldErrs := fieldErrs + [InvalidVersion];
    }
    if spec.etcd.AutoGrowEnabled() && spec.etcd.volumeSize.Some? && spec.etcd.volumeSize.value != 0 {
      fieldErrs := fieldErrs + [AutoGrowWithVolumeSize];
    }
    if !spec.etcd.AutoGrowEnabled() && (spec.etcd.volumeSize.None? || spec.etcd.volumeSize.value == 0) {
      fieldErrs := fieldErrs + [NoAutoGrowWithoutVolumeSize];
    }
    var issuerErrs := ValidateIssuers(spec.oidcProviders);
    fieldErrs := fieldErrs + issuerErrs;
    if OrDefault(spec.rootCADuration) < OrDefault(spec.caDuration) {
      fieldErrs := fieldErrs + [RootDurationTooShort];
    }
    if fieldErrs != [] {
      assert Violates(spec, fieldErrs[0]);
    }
  }

  datatype UpdateResult =
    | OldVersionInvalid
    | Rejected(fieldErrs: seq<FieldError>)
    | VersionDecreased
    | VolumeSizeDecreased
    | Accepted

  /** What an accepted update guarantees, and all it takes to be accepted. */
  ghost predicate UpdateAllowed(old_: Spec, oldStatusSize: int, new_: Spec) {
    && Admissible(new_)
    && old_.version.Some? && new_.version.Some? && new_.version.value >= old_.version.value
    && (!new_.etcd.AutoGrowEnabled() ==>
          && new_.etcd.volumeSize.Some?
          && (old_.etcd.AutoGrowEnabled() ==> new_.etcd.volumeSize.value >= oldStatusSize)
          && (old_.etcd.volumeSize.Some? ==> new_.etcd.volumeSize.value >= old_.etcd.volumeSize.value))
  }

  method ValidateUpdate(old_: Spec, oldStatusSize: int, new_: Spec) returns (r: UpdateResult)
    ensures r == Accepted <==> UpdateAllowed(old_, oldStatusSize, new_)
    ensures r == OldVersionInvalid <==> old_.version.None?
    ensures r.Rejected? <==> old_.version.Some? && !Admissible(new_)
    ensures r == VersionDecreased <==>
            old_.version.Some? && Admissible(new_) && new_.version.Some? && new_.version.value < old_.version.value
  {
    if old_.version.None? {
      return OldVersionInvalid;
    }
    var fieldErrs := ValidateCreate(new_);
    if fieldErrs != [] {
      return Rejected(fieldErrs);
    }
    AdmissibleMode(new_);
    if new_.version.value < old_.version.value {
      return VersionDecreased;
    }
    if !new_.etcd.AutoGrowEnabled() && new_.etcd.volumeSize.Some? {
      if old_.etcd.AutoGrowEnabled() && new_.etcd.volumeSize.value < oldStatusSize {
        return VolumeSizeDecreased;
      } else if old_.etcd.volumeSize.Some? && new_.etcd.volumeSize.value < old_.etcd.volumeSize.value {
        return VolumeSizeDecreased;
      }
    }
    return Accepted;
  }

  /** A new fixed size is at least the old fixed size, and the recorded size when auto-grow is switched off. */
  function SizeFloor(old_: Spec, oldStatusSize: int): (floor: Option<int>)
    ensures floor.Some? <==> old_.etcd.autoGrow != Some(false) || old_.etcd.volumeSize.Some?
  {
    if old_.etcd.autoGrow == Some(false) then old_.etcd.volumeSize
    else if old_.etcd.volumeSize.Some? then Some(Max(oldStatusSize, old_.etcd.volumeSize.value))
    else Some(oldStatusSize)
  }

  /** Which updates are accepted, in terms of what may not decrease. */
  lemma UpdateAllowedExactly(old_: Spec, oldStatusSize: int, new_: Spec)
    ensures UpdateAllowed(old_, oldStatusSize, new_) <==>
            && Admissible(new_)
            && old_.version.Some? && new_.version.Some? && old_.version.value <= new_.version.value
            && (new_.etcd.autoGrow == Some(false) && SizeFloor(old_, oldStatusSize).Some? ==>
                  && new_.etcd.volumeSize.Some?
                  && SizeFloor(old_, oldStatusSize).value <= new_.etcd.volumeSize.value)
  {
    if Admissible(new_) {
      AdmissibleMode(new_);
    }
  }

  /** An admitted object can always be updated to itself. */
  lemma UnchangedIsAccepted(spec: Spec, statusSize: int)
    requires Admissible(spec)
    ensures UpdateAllowed(spec, statusSize, spec)
  {
    AdmissibleMode(spec);
  }
}

/** Arithmetic of the etcd volume: growth, the storage quota, and NOSPACE alarms. Sizes are bytes. */
module EtcdVolume {
  import opened Common

  const MEBIBYTE := 1024 * 1024
  const STORAGE_BUFFER := 500 * MEBIBYTE
  const STORAGE_INCREMENT := 1024 * MEBIBYTE
  const MAX_INT64 := 0x7FFF_FFFF_FFFF_FFFF

  // ---------------------------------------------------------------- growth

  predicate NeedsGrowth(size: int, usage: int, buffer: int) {
    size - usage < buffer
  }

  function Grow(size: int, usage: int, buffer: int, increment: int): int {
    if NeedsGrowth(size, usage, buffer) then size + increment else size
  }

  function GrowRepeatedly(size: int, usage: int, buffer: int, increment: int, n: nat): int
    decreases n
  {
    if n == 0 then size
    else GrowRepeatedly(Grow(size, usage, buffer, increment), usage, buffer, increment, n - 1)
  }

  function CeilDiv(a: int, b: int): int
    requires b > 0
  {
    (a + b - 1) / b
  }

  /** How often a volume grows while the usage stays what it is. */
  function GrowthSteps(size: int, usage: int, buffer: int, increment: int): nat
    requires increment > 0
  {
    var missing := usage + buffer - size;
    if missing <= 0 then 0 else CeilDiv(missing, increment)
  }

  lemma CeilDivIsLeast(a: int, b: int, n: int)
    requires b > 0
    ensures n >= CeilDiv(a, b) <==> n * b >= a
  {
    var q := CeilDiv(a, b);
    assert a + b - 1 == q * b + (a + b - 1) % b;
    if n >= q {
      assert n * b >= q * b by { MulMonotone(q, n, b); }
    } else {
      assert (q - 1) * b >= n * b by { MulMonotone(n, q - 1, b); }
    }
  }

  lemma MulMonotone(x: int, y: int, b: int)
    requires x <= y && b >= 0
    ensures x * b <= y * b
  {
  }

  lemma CeilDivOneLess(a: int, b: int)
    requires b > 0
    ensures CeilDiv(a - b, b) == CeilDiv(a, b) - 1
  {
    var q, r := CeilDiv(a, b), CeilDiv(a - b, b);
    CeilDivIsLeast(a, b, q);
    CeilDivIsLeast(a - b, b, q - 1);
    assert (q - 1) * b == q * b - b;
    CeilDivIsLeast(a - b, b, r);
    CeilDivIsLeast(a, b, r + 1);
    assert (r + 1) * b == r * b + b;
  }

  /** A step short of the target is taken, and then one step fewer remains. */
  lemma GrowthStepsCountDown(size: int, usage: int, buffer: int, increment: int)
    requires increment > 0
    ensures NeedsGrowth(size, usage, buffer) <==> GrowthSteps(size, usage, buffer, increment) > 0
    ensures NeedsGrowth(size, usage, buffer) ==>
              GrowthSteps(size + increment, usage, buffer, increment)
              == GrowthSteps(size, usage, buffer, increment) - 1
  {
    var missing := usage + buffer - size;
    if missing > 0 {
      CeilDivIsLeast(missing, increment, 0);
      CeilDivIsLeast(missing, increment, 1);
      CeilDivOneLess(missing, increment);
    }
  }

  /** With constant usage, n reconciles take exactly min(n, GrowthSteps) growth steps. */
  lemma {:induction false} GrowthIsExact(size: int, usage: int, buffer: int, increment: int, n: nat)
    requires increment > 0
    ensures var steps := GrowthSteps(size, usage, buffer, increment);
            GrowRepeatedly(size, usage, buffer, increment, n) == size + (if n < steps then n else steps) * increment
    decreases n
  {
    if n > 0 {
      GrowthStepsCountDown(size, usage, buffer, increment);
      var next := Grow(size, usage, buffer, increment);
      GrowthIsExact(next, usage, buffer, increment, n - 1);
      if NeedsGrowth(size, usage, buffer) {
        var rest := GrowthSteps(next, usage, buffer, increment);
        var taken := if n - 1 < rest then n - 1 else rest;
        assert increment + taken * increment == (taken + 1) * increment;
      }
    }
  }

  /** The size reached is a fixed point, and no smaller number of steps has the headroom. */
  lemma GrowthConverges(size: int, usage: int, buffer: int, increment: int, n: nat)
    requires increment > 0
    requires n >= GrowthSteps(size, usage, buffer, increment)
    ensures var final := GrowRepeatedly(size, usage, buffer, increment, n);
            && final - usage >= buffer
            && Grow(final, usage, buffer, increment) == final
    ensures forall k: nat :: k < GrowthSteps(size, usage, buffer, increment) ==>
              GrowRepeatedly(size, usage, buffer, increment, k) - usage < buffer
  {
    var steps := GrowthSteps(size, usage, buffer, increment);
    var missing := usage + buffer - size;
    GrowthIsExact(size, usage, buffer, increment, n);
    if missing > 0 {
      CeilDivIsLeast(missing, increment, steps);
    }
    forall k: nat | k < steps
      ensures GrowRepeatedly(size, usage, buffer, increment, k) - usage < buffer
    {
      GrowthIsExact(size, usage, buffer, increment, k);
      CeilDivIsLeast(missing, increment, k);
    }
  }

  // ---------------------------------------------------------------- quota

  function WrapInt64(x: int): int {
    (x + MAX_INT64 + 1) % (2 * (MAX_INT64 + 1)) - (MAX_INT64 + 1)
  }

  /** Integer division as Go does it, toward zero. */
  function TruncDiv(a: int, b: int): int
    requires b > 0
  {
    if a >= 0 then a / b else -((-a) / b)
  }

  /** 90% of the volume, computed in 64 bits. */
  function StorageQuota(size: int): int {
    TruncDiv(WrapInt64(size * 90), 100)
  }

  /** The 64-bit product is exact up to this size, and not one byte further. */
  lemma QuotaOverflowsExactly(size: int)
    requires 0 <= size <= MAX_INT64
    ensures WrapInt64(size * 90) == size * 90 <==> size <= MAX_INT64 / 90
    ensures size <= MAX_INT64 / 90 ==> StorageQuota(size) == size * 90 / 100
  {
  }

  lemma QuotaLeavesATenth(size: int)
    requires 0 <= size <= MAX_INT64 / 90
    ensures size - StorageQuota(size) == CeilDiv(size, 10)
  {
    QuotaOverflowsExactly(size);
    assert size * 90 / 100 == size * 9 / 10;
    assert size == 10 * (size / 10) + size % 10;
  }

  /** Reaching the quota always triggers growth exactly when a tenth of the volume is less than the buffer. */
  lemma QuotaTriggersGrowthExactly(size: int, buffer: int)
    requires 0 <= size <= MAX_INT64 / 90
    ensures (forall usage :: usage >= StorageQuota(size) ==> NeedsGrowth(size, usage, buffer))
            <==> CeilDiv(size, 10) < buffer
  {
    QuotaLeavesATenth(size);
    if CeilDiv(size, 10) >= buffer {
      assert !NeedsGrowth(size, StorageQuota(size), buffer);
    }
  }

  /** With the deployed buffer the two thresholds cross just below 5000Mi. */
  lemma DeployedThreshold(size: int)
    requires 0 <= size <= MAX_INT64 / 90
    ensures (forall usage :: usage >= StorageQuota(size) ==> NeedsGrowth(size, usage, STORAGE_BUFFER))
            <==> size <= 5000 * MEBIBYTE - 10
  {
    QuotaTriggersGrowthExactly(size, STORAGE_BUFFER);
  }

  /** The deployed sizes: the first growth is to a gibibyte, and it comes with less than 500Mi to spare. */
  lemma DeployedGrowth(size: int, usage: int)
    ensures Grow(size, usage, STORAGE_BUFFER, STORAGE_INCREMENT) ==
            if size - usage < 524288000 then size + 1073741824 else size
  {
  }

  // ---------------------------------------------------------------- alarms

  datatype AlarmType = NoSpace | Corrupt
  datatype Alarm = Alarm(memberID: int, kind: AlarmType)

  datatype Health = Healthy | ActiveAlarms(alarms: seq<Alarm>) | DisarmFailed | ListFailed

  function NoSpaceAlarms(alarms: seq<Alarm>): seq<Alarm> {
    if alarms == [] then []
    else (if alarms[0].kind == NoSpace then [alarms[0]] else []) + NoSpaceAlarms(alarms[1..])
  }

  function Difference(alarms: seq<Alarm>, ignored: seq<Alarm>): seq<Alarm> {
    if alarms == [] then []
    else (if alarms[0] in ignored then [] else [alarms[0]]) + Difference(alarms[1..], ignored)
  }

  lemma {:induction false} NoSpaceAlarmsAre(alarms: seq<Alarm>, a: Alarm)
    ensures a in NoSpaceAlarms(alarms) <==> a in alarms && a.kind == NoSpace
  {
    if alarms != [] {
      NoSpaceAlarmsAre(alarms[1..], a);
      assert alarms == [alarms[0]] + alarms[1..];
    }
  }

  lemma {:induction false} DifferenceIs(alarms: seq<Alarm>, ignored: seq<Alarm>, a: Alarm)
    ensures a in Difference(alarms, ignored) <==> a in alarms && a !in ignored
  {
    if alarms != [] {
      DifferenceIs(alarms[1..], ignored, a);
      assert alarms == [alarms[0]] + alarms[1..];
    }
  }

  /** Alarms that make the cluster unhealthy: all but NOSPACE with headroom or with auto-grow. */
  predicate Active(a: Alarm, headroomSuffices: bool, autoGrow: bool) {
    !(a.kind == NoSpace && (headroomSuffices || autoGrow))
  }

  /** No call fails, and no alarm counts. */
  ghost predicate IsHealthy(
    alarms: Option<seq<Alarm>>, size: int, usage: int, buffer: int, autoGrow: bool, disarmFailsAt: Option<nat>)
  {
    && alarms.Some?
    && (NeedsGrowth(size, usage, buffer) || disarmFailsAt.None? || disarmFailsAt.value >= |NoSpaceAlarms(alarms.value)|)
    && forall a :: a in alarms.value ==> !Active(a, !NeedsGrowth(size, usage, buffer), autoGrow)
  }

  /** Without failing calls: NOSPACE is tolerated with enough headroom or with auto-grow, any other alarm never. */
  lemma HealthyExactly(alarms: seq<Alarm>, size: int, usage: int, buffer: int, autoGrow: bool)
    ensures IsHealthy(Some(alarms), size, usage, buffer, autoGrow, None) <==>
            forall a :: a in alarms ==> a.kind == NoSpace && (size - usage >= buffer || autoGrow)
  {
  }

  /** An alarm that is not tolerated. */
  lemma ActiveExactly(a: Alarm, headroomSuffices: bool, autoGrow: bool)
    ensures Active(a, headroomSuffices, autoGrow) <==> a.kind == Corrupt || (!headroomSuffices && !autoGrow)
  {
  }

  /** `alarms` is None when listing fails; the disarm call number `disarmFailsAt` fails. */
  method EtcdIsHealthy(
    alarms: Option<seq<Alarm>>, size: int, usage: int, buffer: int, autoGrow: bool, disarmFailsAt: Option<nat>)
    returns (health: Health, disarmed: seq<Alarm>)
    ensures alarms.None? <==> health == ListFailed
    ensures health == DisarmFailed <==>
            && alarms.Some? && !NeedsGrowth(size, usage, buffer)
            && disarmFailsAt.Some? && disarmFailsAt.value < |NoSpaceAlarms(alarms.value)|
    ensures health == Healthy <==> IsHealthy(alarms, size, usage, buffer, autoGrow, disarmFailsAt)
    ensures health.ActiveAlarms? ==>
            && health.alarms != []
            && forall a :: a in health.alarms <==>
                 a in alarms.value && Active(a, !NeedsGrowth(size, usage, buffer), autoGrow)
    ensures disarmed != [] ==> !NeedsGrowth(size, usage, buffer)
    ensures health == Healthy || health.ActiveAlarms? ==>
              disarmed == if NeedsGrowth(size, usage, buffer) then [] else NoSpaceAlarms(alarms.value)
  {
    disarmed := [];
    if alarms.None? {
      return ListFailed, [];
    }
    var all := alarms.value;
    forall a {
      NoSpaceAlarmsAre(all, a);
    }
    if all == [] {
      return Healthy, [];
    }
    var nospaceAlarms := NoSpaceAlarms(all);
    var headroom := size - usage;
    var ignoredAlarms := [];
    if headroom >= buffer {
      for i := 0 to |nospaceAlarms|
        invariant disarmed == nospaceAlarms[..i]
        invariant disarmFailsAt.Some? ==> disarmFailsAt.value >= i
      {
        if disarmFailsAt == Some(i) {
          return DisarmFailed, disarmed;
        }
        disarmed := disarmed + [nospaceAlarms[i]];
      }
      ignoredAlarms := nospaceAlarms;
    } else if autoGrow {
      ignoredAlarms := nospaceAlarms;
    }
    var activeAlarms := Difference(all, ignoredAlarms);
    forall a {
      DifferenceIs(all, ignoredAlarms, a);
    }
    if activeAlarms != [] {
      assert activeAlarms[0] in activeAlarms;
      return ActiveAlarms(activeAlarms), disarmed;
    }
    return Healthy, disarmed;
  }

  /**
   * Above the crossing point a full quota goes unnoticed: nothing grows, all NOSPACE alarms are disarmed, and the
   * cluster counts as healthy if and only if there is no alarm of another kind.
   */
  method FullQuotaDisarms(size: int, buffer: int, alarms: seq<Alarm>) returns (health: Health, disarmed: seq<Alarm>)
    requires 0 <= size <= MAX_INT64 / 90 && CeilDiv(size, 10) >= buffer
    ensures Grow(size, StorageQuota(size), buffer, STORAGE_INCREMENT) == size
    ensures disarmed == NoSpaceAlarms(alarms)
    ensures health == Healthy <==> forall a :: a in alarms ==> a.kind == NoSpace
  {
    QuotaLeavesATenth(size);
    health, disarmed := EtcdIsHealthy(Some(alarms), size, StorageQuota(size), buffer, true, None);
  }
}

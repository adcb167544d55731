/** Defragmentation of etcd when a member is fragmented, at most once per cooldown. */
module EtcdDefragmentation {
  import opened Common
  import opened ControlPlane

  const COOLDOWN := 3600
  const FRAGMENTATION_THRESHOLD := 0.20

  datatype MemberStatus = MemberStatus(dbSize: int, dbSizeInUse: int)

  /** The test of the code, over exact rationals. */
  predicate Fragmented(s: MemberStatus) {
    && s.dbSize != 0 && s.dbSizeInUse <= s.dbSize
    && (s.dbSize - s.dbSizeInUse) as real / s.dbSize as real > FRAGMENTATION_THRESHOLD
  }

  lemma RatioAbove(a: int, b: int)
    requires b != 0 && a >= 0
    ensures a as real / b as real > FRAGMENTATION_THRESHOLD <==> b > 0 && 5 * a > b
  {
    var ratio := a as real / b as real;
    assert ratio * b as real == a as real;
    if b > 0 {
      if 5 * a > b {
        assert (ratio - 0.2) * b as real > 0.0;
      } else {
        assert (0.2 - ratio) * b as real >= 0.0;
      }
    }
  }

  /** In integers: more than a fifth of a database of positive size is unused. */
  lemma FragmentedInIntegers(s: MemberStatus)
    ensures Fragmented(s) <==> s.dbSize > 0 && s.dbSizeInUse <= s.dbSize && 5 * (s.dbSize - s.dbSizeInUse) > s.dbSize
  {
    if s.dbSize != 0 && s.dbSizeInUse <= s.dbSize {
      RatioAbove(s.dbSize - s.dbSizeInUse, s.dbSize);
    }
  }

  /** Times at which a pass reads the clock, and whether the defragmentation call fails. */
  datatype Pass = Pass(statuses: map<string, MemberStatus>, check: int, attempt: int, done: int, fails: bool)

  predicate CoolingDown(status: DefragStatus, now: int) {
    status.lastAttempted.Some? && now - status.lastAttempted.value < COOLDOWN
  }

  ghost predicate Attempts(status: DefragStatus, p: Pass) {
    !CoolingDown(status, p.check) && exists member :: member in p.statuses && Fragmented(p.statuses[member])
  }

  ghost function DefragStep(status: DefragStatus, p: Pass): DefragStatus {
    if !Attempts(status, p) then status
    else DefragStatus(Some(p.attempt), if p.fails then status.last else Some(p.done))
  }

  /** More than a fifth of the member's database is unused. */
  predicate NeedsDefragmentation(s: MemberStatus) {
    s.dbSize > 0 && s.dbSizeInUse <= s.dbSize && 5 * (s.dbSize - s.dbSizeInUse) > s.dbSize
  }

  /**
   * A pass attempts it exactly when some member needs it and an hour has gone by since the last attempt, if any; an
   * attempt is recorded with its time, and its success with the time at its end.
   */
  lemma DefragmentedExactly(status: DefragStatus, p: Pass)
    ensures Attempts(status, p) <==>
            && (exists member :: member in p.statuses && NeedsDefragmentation(p.statuses[member]))
            && (status.lastAttempted.None? || p.check >= status.lastAttempted.value + 3600)
    ensures var next := DefragStep(status, p);
            if Attempts(status, p) then
              next.lastAttempted == Some(p.attempt) && next.last == if p.fails then status.last else Some(p.done)
            else next == status
  {
    forall member | member in p.statuses
      ensures Fragmented(p.statuses[member]) <==> NeedsDefragmentation(p.statuses[member])
    {
      FragmentedInIntegers(p.statuses[member]);
    }
    if member :| member in p.statuses && NeedsDefragmentation(p.statuses[member]) {
      assert Fragmented(p.statuses[member]);
    }
    if member :| member in p.statuses && Fragmented(p.statuses[member]) {
      assert NeedsDefragmentation(p.statuses[member]);
    }
  }

  /** The members come in any order; which one is met first does not matter. */
  method ReconcileETCDDefragmentation(hcp: HostedControlPlane, p: Pass) returns (ok: bool)
    modifies hcp`defrag
    ensures hcp.defrag == DefragStep(old(hcp.defrag), p)
    ensures ok <==> !(Attempts(old(hcp.defrag), p) && p.fails)
  {
    if hcp.defrag.lastAttempted.Some? && p.check - hcp.defrag.lastAttempted.value < COOLDOWN {
      return true;
    }
    var members := p.statuses.Keys;
    while members != {}
      invariant members <= p.statuses.Keys
      invariant hcp.defrag == old(hcp.defrag)
      invariant forall m :: m in p.statuses && m !in members ==> !Fragmented(p.statuses[m])
      decreases |members|
    {
      var m :| m in members;
      members := members - {m};
      if !Fragmented(p.statuses[m]) {
        continue;
      }
      hcp.defrag := hcp.defrag.(lastAttempted := Some(p.attempt));
      if p.fails {
        return false;
      }
      hcp.defrag := hcp.defrag.(last := Some(p.done));
      return true;
    }
    return true;
  }

  // ---------------------------------------------------------------- runs

  predicate ClockFrom(now: int, passes: seq<Pass>)
    decreases |passes|
  {
    passes == [] || (now <= passes[0].check <= passes[0].attempt && ClockFrom(passes[0].attempt, passes[1..]))
  }

  ghost function RunDefragmentation(status: DefragStatus, passes: seq<Pass>): DefragStatus
    decreases |passes|
  {
    if passes == [] then status else RunDefragmentation(DefragStep(status, passes[0]), passes[1..])
  }

  ghost function AttemptTimes(status: DefragStatus, passes: seq<Pass>): seq<int>
    decreases |passes|
  {
    if passes == [] then []
    else (if Attempts(status, passes[0]) then [passes[0].attempt] else [])
         + AttemptTimes(DefragStep(status, passes[0]), passes[1..])
  }

  predicate CooledDown(previous: Option<int>, times: seq<int>)
    decreases |times|
  {
    times != [] ==>
      && (previous.Some? ==> times[0] - previous.value >= COOLDOWN)
      && CooledDown(Some(times[0]), times[1..])
  }

  /** Whatever the statuses and failures, consecutive attempts of a run are at least the cooldown apart. */
  lemma {:induction false} AttemptsCoolDown(status: DefragStatus, passes: seq<Pass>, now: int)
    requires ClockFrom(now, passes)
    ensures CooledDown(status.lastAttempted, AttemptTimes(status, passes))
    decreases |passes|
  {
    if passes != [] {
      var step := DefragStep(status, passes[0]);
      var rest := AttemptTimes(step, passes[1..]);
      AttemptsCoolDown(step, passes[1..], passes[0].attempt);
      if Attempts(status, passes[0]) {
        assert ([passes[0].attempt] + rest)[1..] == rest;
      } else {
        assert [] + rest == rest;
      }
    }
  }

  /** k attempts in a window of length W satisfy (k - 1) * COOLDOWN <= W. */
  lemma {:induction false} AttemptRate(previous: Option<int>, times: seq<int>)
    requires CooledDown(previous, times) && times != []
    ensures (|times| - 1) * COOLDOWN <= times[|times| - 1] - times[0]
    decreases |times|
  {
    if |times| > 1 {
      AttemptRate(Some(times[0]), times[1..]);
    }
  }

  lemma DefragmentationRate(status: DefragStatus, passes: seq<Pass>, now: int)
    requires ClockFrom(now, passes)
    ensures var t := AttemptTimes(status, passes);
            t != [] ==> (|t| - 1) * COOLDOWN <= t[|t| - 1] - t[0]
  {
    AttemptsCoolDown(status, passes, now);
    var t := AttemptTimes(status, passes);
    if t != [] {
      AttemptRate(status.lastAttempted, t);
    }
  }
}

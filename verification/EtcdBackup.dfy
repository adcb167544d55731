/** Cron-triggered etcd backups under a watchdog, and what runs of them look like. */
module EtcdBackup {
  import opened Common
  import opened BackupSchedule
  import opened ControlPlane

  // ---------------------------------------------------------------- watchdog

  /** Some wait between consecutive signs of progress reaches the interval. */
  predicate Stalls(start: int, ticks: seq<int>, interval: int)
    decreases |ticks|
  {
    ticks != [] && (ticks[0] >= start + interval || Stalls(ticks[0], ticks[1..], interval))
  }

  /** The wait that ends with sign of progress number `i` is too long. */
  predicate GapAt(start: int, ticks: seq<int>, interval: int, i: int)
    requires 0 <= i < |ticks|
  {
    ticks[i] >= (if i == 0 then start else ticks[i - 1]) + interval
  }

  lemma {:induction false} StallsIffGap(start: int, ticks: seq<int>, interval: int)
    ensures Stalls(start, ticks, interval) <==> exists i :: 0 <= i < |ticks| && GapAt(start, ticks, interval, i)
    decreases |ticks|
  {
    if ticks != [] {
      var rest := ticks[1..];
      StallsIffGap(ticks[0], rest, interval);
      assert GapAt(start, ticks, interval, 0) <==> ticks[0] >= start + interval;
      assert forall i :: 0 <= i < |rest| ==>
               (GapAt(ticks[0], rest, interval, i) <==> GapAt(start, ticks, interval, i + 1));
      if i :| 0 < i < |ticks| && GapAt(start, ticks, interval, i) {
        assert GapAt(ticks[0], rest, interval, i - 1);
      }
    }
  }

  /** The timer: each sign of progress pushes the deadline out, unless it has passed. */
  method WatchdogFires(start: int, ticks: seq<int>, interval: int) returns (fired: bool)
    ensures fired <==> exists i :: 0 <= i < |ticks| && GapAt(start, ticks, interval, i)
  {
    var deadline := start + interval;
    for k := 0 to |ticks|
      invariant deadline == (if k == 0 then start else ticks[k - 1]) + interval
      invariant forall i :: 0 <= i < k ==> !GapAt(start, ticks, interval, i)
    {
      if ticks[k] >= deadline {
        assert GapAt(start, ticks, interval, k);
        return true;
      }
      deadline := ticks[k] + interval;
    }
    return false;
  }

  // ---------------------------------------------------------------- one pass

  /**
   * What one pass meets: the schedule that the object asks for at the time, the time of the due check, whether client
   * and schedule resolve, the snapshot, the upload with its signs of progress, and the time at which the backup is
   * recorded.
   */
  datatype Attempt = Attempt(
    s3Client: bool, scheduleParses: bool, next: Schedule, check: int,
    snapshotOk: bool, progress: seq<int>, uploadOk: bool, recorded: int, closeOk: bool)

  predicate Due(next: Schedule, status: BackupStatus, now: int) {
    status.last.None? || next(status.last.value) < now
  }

  /** The signs of progress include opening the stream and the end of the upload. */
  predicate Succeeds(a: Attempt, interval: int) {
    a.snapshotOk && a.uploadOk && !Stalls(a.check, a.progress, interval)
  }

  predicate Records(status: BackupStatus, a: Attempt, interval: int) {
    a.s3Client && a.scheduleParses && Due(a.next, status, a.check) && Succeeds(a, interval)
  }

  function BackupStep(status: BackupStatus, a: Attempt, interval: int): BackupStatus {
    if Records(status, a, interval) then BackupStatus(Some(a.recorded), Some(a.next(a.recorded))) else status
  }

  /** The reconcile reports no error. */
  predicate BackupOk(status: BackupStatus, a: Attempt, interval: int) {
    && a.s3Client && a.scheduleParses
    && (Due(a.next, status, a.check) ==> Succeeds(a, interval))
  }

  /** No call fails that the pass makes, closing the client included. */
  predicate EverythingWorks(status: BackupStatus, a: Attempt, interval: int) {
    BackupOk(status, a, interval) && (Due(a.next, status, a.check) ==> a.closeOk)
  }

  /**
   * The error of closing the client is joined, after the return, to a variable of the inner block that hides the
   * named result; it reaches neither the caller nor the status.
   */
  method ReconcileETCDBackup(hcp: HostedControlPlane, a: Attempt, interval: int) returns (ok: bool)
    modifies hcp`backup
    ensures hcp.backup == BackupStep(old(hcp.backup), a, interval)
    ensures ok <==> BackupOk(old(hcp.backup), a, interval)
  {
    if !a.s3Client || !a.scheduleParses {
      return false;
    }
    var lastBackupTime := hcp.backup.last;
    if lastBackupTime.None? || a.next(lastBackupTime.value) < a.check {
      StallsIffGap(a.check, a.progress, interval);
      var stalled := WatchdogFires(a.check, a.progress, interval);
      if !a.snapshotOk || !a.uploadOk || stalled {
        return false;
      }
      hcp.backup := hcp.backup.(last := Some(a.recorded));
      hcp.backup := hcp.backup.(next := Some(a.next(hcp.backup.last.value)));
    }
    return true;
  }

  /** Client, schedule, snapshot and upload work, and every wait for a sign of progress is short enough. */
  predicate Works(a: Attempt, interval: int) {
    && a.s3Client && a.scheduleParses && a.snapshotOk && a.uploadOk
    && forall i :: 0 <= i < |a.progress| ==> Wait(a, i) < interval
  }

  /** How long it took until sign of progress number i. */
  function Wait(a: Attempt, i: int): int
    requires 0 <= i < |a.progress|
  {
    a.progress[i] - (if i == 0 then a.check else a.progress[i - 1])
  }

  lemma WorksExactly(a: Attempt, interval: int)
    ensures Works(a, interval) <==> a.s3Client && a.scheduleParses && Succeeds(a, interval)
  {
    StallsIffGap(a.check, a.progress, interval);
    if i :| 0 <= i < |a.progress| && GapAt(a.check, a.progress, interval, i) {
      assert Wait(a, i) >= interval;
    }
    if i :| 0 <= i < |a.progress| && Wait(a, i) >= interval {
      assert GapAt(a.check, a.progress, interval, i);
    }
  }

  /**
   * A pass records a backup exactly if it works and there is none yet or the schedule's answer to the last one has
   * passed; one that works reports success, due or not, and so does one that is not due and resolves its schedule.
   */
  lemma BackupRecordedExactly(status: BackupStatus, a: Attempt, interval: int)
    ensures var due := status.last.None? || a.next(status.last.value) < a.check;
            && BackupStep(status, a, interval) ==
               (if Works(a, interval) && due then BackupStatus(Some(a.recorded), Some(a.next(a.recorded))) else status)
            && (BackupOk(status, a, interval) <==>
                  Works(a, interval) || (a.s3Client && a.scheduleParses && !due))
  {
    WorksExactly(a, interval);
    assert Due(a.next, status, a.check) <==> status.last.None? || a.next(status.last.value) < a.check;
  }

  // ---------------------------------------------------------------- the lost error of closing the client

  /** The same attempts, but for whether closing the client works. */
  ghost predicate SameButClose(a: seq<Attempt>, b: seq<Attempt>) {
    |a| == |b| && forall i :: 0 <= i < |a| ==> a[i] == b[i].(closeOk := a[i].closeOk)
  }

  /** A pass in which some call fails reports success exactly when it recorded a backup and only the close failed. */
  lemma FailureHiddenExactly(status: BackupStatus, a: Attempt, interval: int)
    ensures BackupOk(status, a, interval) && !EverythingWorks(status, a, interval)
            <==> Records(status, a, interval) && !a.closeOk
  {
  }

  /** A due attempt whose close fails is reported as an error exactly when something else failed too. */
  lemma FailingCloseReportedExactly(status: BackupStatus, a: Attempt, interval: int)
    requires Due(a.next, status, a.check) && !a.closeOk
    ensures !BackupOk(status, a, interval) <==>
            || !a.s3Client || !a.scheduleParses || !a.snapshotOk || !a.uploadOk
            || exists i :: 0 <= i < |a.progress| && GapAt(a.check, a.progress, interval, i)
  {
    StallsIffGap(a.check, a.progress, interval);
  }

  /** What the passes of a run report, in order. */
  function Reports(status: BackupStatus, attempts: seq<Attempt>, interval: int): seq<bool>
    decreases |attempts|
  {
    if attempts == [] then []
    else
      [BackupOk(status, attempts[0], interval)] +
      Reports(BackupStep(status, attempts[0], interval), attempts[1..], interval)
  }

  /** Over any run neither the reports nor the recorded backups depend on whether the client closes. */
  lemma {:induction false} RunsIgnoreClose(
    status: BackupStatus, a: seq<Attempt>, b: seq<Attempt>, interval: int)
    requires SameButClose(a, b)
    ensures Reports(status, a, interval) == Reports(status, b, interval)
    ensures RunBackups(status, a, interval) == RunBackups(status, b, interval)
    decreases |a|
  {
    if a != [] {
      assert a[0] == b[0].(closeOk := a[0].closeOk);
      RunsIgnoreClose(BackupStep(status, a[0], interval), a[1..], b[1..], interval);
    }
  }

  // ---------------------------------------------------------------- runs

  /** The clock never goes back, within a pass and from one pass to the next. */
  predicate ClockFrom(now: int, attempts: seq<Attempt>)
    decreases |attempts|
  {
    attempts == [] ||
    (now <= attempts[0].check <= attempts[0].recorded && ClockFrom(attempts[0].recorded, attempts[1..]))
  }

  function RunBackups(status: BackupStatus, attempts: seq<Attempt>, interval: int): BackupStatus
    decreases |attempts|
  {
    if attempts == [] then status
    else RunBackups(BackupStep(status, attempts[0], interval), attempts[1..], interval)
  }

  /** The attempts of a run that record a backup. */
  function Backups(status: BackupStatus, attempts: seq<Attempt>, interval: int): seq<Attempt>
    decreases |attempts|
  {
    if attempts == [] then []
    else
      (if Records(status, attempts[0], interval) then [attempts[0]] else []) +
      Backups(BackupStep(status, attempts[0], interval), attempts[1..], interval)
  }

  /** The working attempts for which no backup exists yet, or the answer to the last one has passed at the check. */
  function DueOnes(last: Option<int>, attempts: seq<Attempt>, interval: int): seq<Attempt>
    decreases |attempts|
  {
    if attempts == [] then []
    else
      var a := attempts[0];
      if Works(a, interval) && (last.None? || a.next(last.value) < a.check) then
        [a] + DueOnes(Some(a.recorded), attempts[1..], interval)
      else
        DueOnes(last, attempts[1..], interval)
  }

  /** Over any run the backups are exactly those: none is skipped, none is taken early. */
  lemma {:induction false} BackupsExactly(status: BackupStatus, attempts: seq<Attempt>, interval: int)
    ensures Backups(status, attempts, interval) == DueOnes(status.last, attempts, interval)
    decreases |attempts|
  {
    if attempts != [] {
      BackupRecordedExactly(status, attempts[0], interval);
      WorksExactly(attempts[0], interval);
      BackupsExactly(BackupStep(status, attempts[0], interval), attempts[1..], interval);
    }
  }

  /** No schedule point is passed over: once a working pass is checked after it, there is a backup after it. */
  lemma {:induction false} PointIsServed(
    next: Schedule, status: BackupStatus, attempts: seq<Attempt>, interval: int, now: int, i: nat)
    requires ClockFrom(now, attempts) && i < |attempts| && OnSchedule(next, attempts)
    requires status.last.Some? && next(status.last.value) < attempts[i].check && Works(attempts[i], interval)
    ensures var last := RunBackups(status, attempts[..i + 1], interval).last;
            last.Some? && last.value > next(status.last.value)
    decreases i
  {
    var a := attempts[0];
    assert a in attempts && forall b :: b in attempts[1..] ==> b in attempts;
    BackupRecordedExactly(status, a, interval);
    assert attempts[..i + 1][0] == a && attempts[..i + 1][1..] == attempts[1..][..i];
    var step := BackupStep(status, a, interval);
    if i == 0 {
      assert attempts[1..][..0] == [];
    } else if step == status {
      PointIsServed(next, status, attempts[1..], interval, a.recorded, i - 1);
    } else {
      ClockOfPrefix(a.recorded, attempts[1..], i);
      LastNeverFalls(step, attempts[1..][..i], interval, a.recorded);
    }
  }

  lemma {:induction false} ClockOfPrefix(now: int, attempts: seq<Attempt>, n: nat)
    requires ClockFrom(now, attempts) && n <= |attempts|
    ensures ClockFrom(now, attempts[..n])
    decreases n
  {
    if n > 0 {
      assert attempts[..n][1..] == attempts[1..][..n - 1];
      ClockOfPrefix(attempts[0].recorded, attempts[1..], n - 1);
    }
  }

  lemma {:induction false} LastNeverFalls(status: BackupStatus, attempts: seq<Attempt>, interval: int, now: int)
    requires ClockFrom(now, attempts) && status.last.Some? && status.last.value <= now
    ensures var last := RunBackups(status, attempts, interval).last;
            last.Some? && last.value >= status.last.value
    decreases |attempts|
  {
    if attempts != [] {
      LastNeverFalls(BackupStep(status, attempts[0], interval), attempts[1..], interval, attempts[0].recorded);
    }
  }

  /** Each backup comes after what its schedule answers to the backup before it. */
  predicate Spaced(previous: Option<int>, backups: seq<Attempt>)
    decreases |backups|
  {
    backups != [] ==>
      && (previous.Some? ==> backups[0].next(previous.value) < backups[0].recorded)
      && Spaced(Some(backups[0].recorded), backups[1..])
  }

  /** The schedule may change from pass to pass: what counts is the one in force at the later backup. */
  lemma {:induction false} BackupsAreSpaced(status: BackupStatus, attempts: seq<Attempt>, interval: int, now: int)
    requires ClockFrom(now, attempts)
    ensures Spaced(status.last, Backups(status, attempts, interval))
    decreases |attempts|
  {
    if attempts != [] {
      var step := BackupStep(status, attempts[0], interval);
      var rest := Backups(step, attempts[1..], interval);
      BackupsAreSpaced(step, attempts[1..], interval, attempts[0].recorded);
      if Records(status, attempts[0], interval) {
        assert ([attempts[0]] + rest)[1..] == rest;
      } else {
        assert [] + rest == rest;
      }
    }
  }

  /** Every backup follows the one before it by a point of its schedule, unless that has no next point to give. */
  lemma {:induction false} SpacedAt(previous: Option<int>, backups: seq<Attempt>, i: nat)
    requires Spaced(previous, backups) && i + 1 < |backups|
    ensures var next, last := backups[i + 1].next, backups[i].recorded;
            && next(last) < backups[i + 1].recorded
            && (IsSchedule(next) && next(last) > last ==>
                  CountPoints(next, last, backups[i + 1].recorded) >= 1)
    decreases i
  {
    if i > 0 {
      SpacedAt(Some(backups[0].recorded), backups[1..], i - 1);
    } else {
      var next, last := backups[1].next, backups[0].recorded;
      if IsSchedule(next) && next(last) > last {
        NextIsPoint(next, last);
        PointIsCounted(next, last, backups[1].recorded, next(last));
      }
    }
  }

  ghost predicate OnSchedule(next: Schedule, backups: seq<Attempt>) {
    forall a :: a in backups ==> a.next == next
  }

  /** Backups to which the schedule answers with no later time. */
  function Unanswered(next: Schedule, backups: seq<Attempt>): nat {
    if backups == [] then 0
    else (if next(backups[0].recorded) <= backups[0].recorded then 1 else 0) + Unanswered(next, backups[1..])
  }

  /** There are no more backups after the first than schedule points up to the last and unanswered backups. */
  predicate BoundedBySchedule(next: Schedule, backups: seq<Attempt>) {
    backups != [] ==>
      |backups| - 1 <=
      CountPoints(next, backups[0].recorded, backups[|backups| - 1].recorded) + Unanswered(next, backups)
  }

  predicate InTimeOrder(backups: seq<Attempt>)
    decreases |backups|
  {
    |backups| > 1 ==> backups[0].recorded <= backups[1].recorded && InTimeOrder(backups[1..])
  }

  lemma {:induction false} BackupsInTimeOrder(status: BackupStatus, attempts: seq<Attempt>, interval: int, now: int)
    requires ClockFrom(now, attempts)
    ensures var b := Backups(status, attempts, interval);
            InTimeOrder(b) && (b != [] ==> now <= b[0].recorded)
    decreases |attempts|
  {
    if attempts != [] {
      var step := BackupStep(status, attempts[0], interval);
      var rest := Backups(step, attempts[1..], interval);
      BackupsInTimeOrder(step, attempts[1..], interval, attempts[0].recorded);
      if Records(status, attempts[0], interval) {
        assert ([attempts[0]] + rest)[1..] == rest;
      } else {
        assert [] + rest == rest;
      }
    }
  }

  lemma {:induction false} SpacedCount(next: Schedule, previous: Option<int>, backups: seq<Attempt>)
    requires IsSchedule(next) && OnSchedule(next, backups) && backups != []
    requires Spaced(previous, backups) && InTimeOrder(backups)
    ensures var first, last := backups[0].recorded, backups[|backups| - 1].recorded;
            first <= last && BoundedBySchedule(next, backups)
    decreases |backups|
  {
    if |backups| > 1 {
      var rest := backups[1..];
      assert backups[1] in backups && forall a :: a in rest ==> a in backups;
      SpacedCount(next, Some(backups[0].recorded), rest);
      SpacedAt(previous, backups, 0);
      CountPointsSplits(next, backups[0].recorded, backups[1].recorded, backups[|backups| - 1].recorded);
    }
  }

  /**
   * In any run, n backups on one schedule are separated by at least n - 1 of its points, less the backups after which
   * it has none to give, whatever fails or stalls meanwhile.
   */
  lemma BackupsBoundedBySchedule(
    next: Schedule, status: BackupStatus, attempts: seq<Attempt>, interval: int, now: int)
    requires IsSchedule(next) && OnSchedule(next, Backups(status, attempts, interval)) && ClockFrom(now, attempts)
    ensures BoundedBySchedule(next, Backups(status, attempts, interval))
    ensures NeverEnds(next) ==> Unanswered(next, Backups(status, attempts, interval)) == 0
  {
    var b := Backups(status, attempts, interval);
    BackupsAreSpaced(status, attempts, interval, now);
    BackupsInTimeOrder(status, attempts, interval, now);
    if b != [] {
      SpacedCount(next, status.last, b);
    }
    if NeverEnds(next) {
      AllAnswered(next, b);
    }
  }

  lemma {:induction false} AllAnswered(next: Schedule, backups: seq<Attempt>)
    requires NeverEnds(next)
    ensures Unanswered(next, backups) == 0
  {
    if backups != [] {
      AllAnswered(next, backups[1..]);
    }
  }

  /** The attempts that would work out if they were due. */
  function Workable(attempts: seq<Attempt>, interval: int): seq<Attempt> {
    if attempts == [] then []
    else
      (if attempts[0].s3Client && attempts[0].scheduleParses && Succeeds(attempts[0], interval)
       then [attempts[0]] else []) + Workable(attempts[1..], interval)
  }

  predicate Answers(next: Schedule, t: int, answer: int) {
    next(t) == answer
  }

  ghost predicate AlwaysAnswers(next: Schedule, answer: int) {
    forall t :: Answers(next, t, answer)
  }

  lemma ZeroIsDue(next: Schedule, zero: int, status: BackupStatus, now: int)
    requires AlwaysAnswers(next, zero) && zero < now
    ensures Due(next, status, now)
  {
    assert status.last.Some? ==> Answers(next, status.last.value, zero);
  }

  /** A schedule without any point, which always answers with one time in the past, backs up in every pass it can. */
  lemma {:induction false} NoPointsBackUpEveryPass(
    zero: int, status: BackupStatus, attempts: seq<Attempt>, interval: int, now: int)
    requires ClockFrom(now, attempts) && zero < now
    requires forall a :: a in attempts ==> AlwaysAnswers(a.next, zero)
    ensures Backups(status, attempts, interval) == Workable(attempts, interval)
    decreases |attempts|
  {
    if attempts != [] {
      assert attempts[0] in attempts && forall a :: a in attempts[1..] ==> a in attempts;
      ZeroIsDue(attempts[0].next, zero, status, attempts[0].check);
      NoPointsBackUpEveryPass(zero, BackupStep(status, attempts[0], interval), attempts[1..], interval,
                              attempts[0].recorded);
    }
  }

  /** The recorded times are those of the last backup, the next one by the schedule in force then. */
  lemma {:induction false} NextFollowsLast(status: BackupStatus, attempts: seq<Attempt>, interval: int)
    ensures var b := Backups(status, attempts, interval);
            RunBackups(status, attempts, interval) ==
            if b == [] then status
            else BackupStatus(Some(b[|b| - 1].recorded), Some(b[|b| - 1].next(b[|b| - 1].recorded)))
    decreases |attempts|
  {
    if attempts != [] {
      var step := BackupStep(status, attempts[0], interval);
      NextFollowsLast(step, attempts[1..], interval);
    }
  }

  /** While nothing succeeds the status stays as it is, and an overdue backup stays due. */
  lemma {:induction false} OverdueStaysDue(
    next: Schedule, status: BackupStatus, attempts: seq<Attempt>, interval: int, now: int, later: int)
    requires Due(next, status, now) && later >= now
    requires Backups(status, attempts, interval) == []
    ensures RunBackups(status, attempts, interval) == status
    ensures Due(next, RunBackups(status, attempts, interval), later)
    decreases |attempts|
  {
    NextFollowsLast(status, attempts, interval);
  }

  /** With @daily, every second backup is more than a day after the one two before it. */
  lemma DailyBackupsSpread(
    minuteOfDay: int, status: BackupStatus, attempts: seq<Attempt>, interval: int, now: int, i: nat)
    requires ClockFrom(now, attempts) && OnSchedule(Daily(minuteOfDay), Backups(status, attempts, interval))
    requires i + 2 < |Backups(status, attempts, interval)|
    ensures var b := Backups(status, attempts, interval);
            b[i + 2].recorded - b[i].recorded > SECONDS_PER_DAY
  {
    var b := Backups(status, attempts, interval);
    BackupsAreSpaced(status, attempts, interval, now);
    SpacedAt(status.last, b, i);
    SpacedAt(status.last, b, i + 1);
    assert b[i + 1] in b && b[i + 2] in b;
    NextDailyBounds(minuteOfDay, b[i].recorded);
    NextDailyBounds(minuteOfDay, b[i + 1].recorded);
    SameTimeOfDay(NextDaily(minuteOfDay, b[i].recorded), NextDaily(minuteOfDay, b[i + 1].recorded), minuteOfDay * 60);
  }

  lemma SameTimeOfDay(p: int, q: int, start: int)
    requires p < q && (p - start) % SECONDS_PER_DAY == 0 && (q - start) % SECONDS_PER_DAY == 0
    ensures q - p >= SECONDS_PER_DAY
  {
  }
}

/** Backup schedules: when the next backup is due, in seconds since the epoch. */
module BackupSchedule {

  /**
   * A schedule gives the first of its points after a time. Without one in reach, as for the 31st of February, it gives
   * the zero time instead, which lies before.
   */
  type Schedule = int -> int

  ghost predicate IsSchedule(next: Schedule) {
    forall t, u :: t <= u < next(t) ==> next(u) == next(t)
  }

  /** There is always a next point. */
  ghost predicate NeverEnds(next: Schedule) {
    forall t :: next(t) > t
  }

  predicate IsPoint(next: Schedule, p: int) {
    next(p - 1) == p
  }

  /** Points p with low < p <= high. */
  function CountPoints(next: Schedule, low: int, high: int): nat
    decreases high - low
  {
    if low >= high then 0
    else CountPoints(next, low, high - 1) + if IsPoint(next, high) then 1 else 0
  }

  lemma NextIsPoint(next: Schedule, t: int)
    requires IsSchedule(next) && next(t) > t
    ensures IsPoint(next, next(t))
  {
    assert t <= next(t) - 1 < next(t);
  }

  lemma {:induction false} CountPointsSplits(next: Schedule, low: int, mid: int, high: int)
    requires low <= mid <= high
    ensures CountPoints(next, low, high) == CountPoints(next, low, mid) + CountPoints(next, mid, high)
    decreases high - mid
  {
    if mid < high {
      CountPointsSplits(next, low, mid, high - 1);
    }
  }

  lemma {:induction false} PointIsCounted(next: Schedule, low: int, high: int, p: int)
    requires IsPoint(next, p) && low < p <= high
    ensures CountPoints(next, low, high) >= 1
    decreases high - low
  {
    if p < high {
      PointIsCounted(next, low, high - 1, p);
    }
  }

  // ---------------------------------------------------------------- @daily

  const MINUTES_PER_DAY := 24 * 60
  const SECONDS_PER_DAY := 24 * 3600

  /** Minute and hour of the cron expression for a 32-bit hash of the cluster's identity. */
  function DailyScheduleFor(hash: nat): (r: (int, int))
    ensures 0 <= r.0 < 60
    ensures 20 <= r.1 < 24 || 0 <= r.1 < 4
  {
    var offset := hash % 480;
    var totalMinutes := 20 * 60 + offset;
    (totalMinutes % 60, (totalMinutes / 60) % 24)
  }

  function MinuteOfDay(minute: int, hour: int): int {
    hour * 60 + minute
  }

  /** The 480 offsets cover the window from 20:00 to 03:59 one to one. */
  lemma DailyWindow(h: nat, g: nat)
    ensures var (m, hr) := DailyScheduleFor(h);
            (MinuteOfDay(m, hr) - 20 * 60) % MINUTES_PER_DAY == h % 480
    ensures DailyScheduleFor(h) == DailyScheduleFor(g) <==> h % 480 == g % 480
  {
    var a, b := 20 * 60 + h % 480, 20 * 60 + g % 480;
    assert a == a / 60 * 60 + a % 60 && b == b / 60 * 60 + b % 60;
    assert 20 <= a / 60 < 28 && 20 <= b / 60 < 28;
  }

  /** The next time of day `minuteOfDay` strictly after `t`. */
  function NextDaily(minuteOfDay: int, t: int): int {
    var start := minuteOfDay * 60;
    start + ((t - start) / SECONDS_PER_DAY + 1) * SECONDS_PER_DAY
  }

  function Daily(minuteOfDay: int): Schedule {
    t => NextDaily(minuteOfDay, t)
  }

  lemma NextDailyBounds(minuteOfDay: int, t: int)
    ensures t < NextDaily(minuteOfDay, t) <= t + SECONDS_PER_DAY
    ensures (NextDaily(minuteOfDay, t) - minuteOfDay * 60) % SECONDS_PER_DAY == 0
  {
    var d := t - minuteOfDay * 60;
    assert d == d / SECONDS_PER_DAY * SECONDS_PER_DAY + d % SECONDS_PER_DAY;
  }

  lemma DailyIsSchedule(minuteOfDay: int)
    ensures IsSchedule(Daily(minuteOfDay)) && NeverEnds(Daily(minuteOfDay))
  {
    forall t
      ensures NextDaily(minuteOfDay, t) > t
    {
      NextDailyBounds(minuteOfDay, t);
    }
    forall t, u | t <= u < NextDaily(minuteOfDay, t)
      ensures NextDaily(minuteOfDay, u) == NextDaily(minuteOfDay, t)
    {
      var start := minuteOfDay * 60;
      NextDailyBounds(minuteOfDay, t);
      assert (u - start) / SECONDS_PER_DAY == (t - start) / SECONDS_PER_DAY;
    }
  }

  /** The points of a daily schedule are exactly the instants at that minute of some day. */
  lemma DailyPoints(minuteOfDay: int, p: int)
    ensures IsPoint(Daily(minuteOfDay), p) <==> (p - minuteOfDay * 60) % SECONDS_PER_DAY == 0
  {
    NextDailyBounds(minuteOfDay, p - 1);
  }
}

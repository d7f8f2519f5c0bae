/** The "every N days at H:M" scheduler. Time is an integer count of milliseconds on the local
    clock, with days of exactly 86 400 000 ms; a timer is represented by its due time. Timer
    expiry, the completion of the awaited batch call and the one-hour retry are events the
    environment triggers by calling the matching method. */
module IntervalCron {
  import opened Common

  const MINUTE: int := 60_000
  const HOUR: int := 3_600_000
  const DAY: int := 86_400_000

  /** Midnight of the day holding t. */
  function DayStart(t: int): int {
    t - t % DAY
  }

  /** `d.setHours(h, m, 0, 0)`: the given hour and minute of d's day (out-of-range values roll over). */
  function AtTime(t: int, h: int, m: int): int {
    DayStart(t) + h * HOUR + m * MINUTE
  }

  /** Moving by whole days keeps the time of day. */
  lemma DayStartShift(t: int, k: int)
    ensures DayStart(t + k * DAY) == DayStart(t) + k * DAY
  {
    assert (t + k * DAY) % DAY == t % DAY;
  }

  /** `while (nextRun <= now) nextRun.setDate(nextRun.getDate() + days)` for a positive step. */
  function Advance(c: int, now: int, step: int): (r: int)
    requires step > 0
    ensures r > now && r >= c
    decreases now - c
  {
    if c > now then c else Advance(c + step, now, step)
  }

  /** The loop stops at the first candidate c + k*step that is after now: every earlier one is not. */
  lemma {:induction false} AdvanceShape(c: int, now: int, step: int) returns (k: nat)
    requires step > 0
    ensures Advance(c, now, step) == c + k * step
    ensures Advance(c, now, step) > now
    ensures forall j :: 0 <= j < k ==> c + j * step <= now
    decreases now - c
  {
    if c > now {
      k := 0;
    } else {
      var k' := AdvanceShape(c + step, now, step);
      k := k' + 1;
      forall j | 0 <= j < k
        ensures c + j * step <= now
      {
        if j > 0 {
          assert c + j * step == (c + step) + (j - 1) * step;
        }
      }
    }
  }

  /** The time `scheduleNextRun` arms, or None when its `while` loop never ends (a last run is
      known, `days` is not positive and the first candidate is not ahead of now). Without a last
      run: today at h:m if that is still ahead, else tomorrow. With one: the last run's day plus
      `days` at h:m, moved on by `days` until it is ahead of now; the today/tomorrow candidate is
      then discarded. */
  function NextRun(now: int, lastRun: Option<int>, days: int, h: int, m: int): (r: Option<int>)
    ensures lastRun.None? ==>
      r.Some? && (r.value == AtTime(now, h, m) || r.value == AtTime(now, h, m) + DAY)
    ensures lastRun.Some? && r.Some? ==>
      r.value > now && r.value >= AtTime(lastRun.value + days * DAY, h, m)
  {
    match lastRun
    case None =>
      var today := AtTime(now, h, m);
      Some(if today <= now then today + DAY else today)
    case Some(last) =>
      var first := AtTime(last + days * DAY, h, m);
      if now < first then Some(first)
      else if days <= 0 then None
      else Some(Advance(first, now, days * DAY))
  }

  /** `scheduleNextRun`'s computation of `nextRun`, with its loop. */
  method ComputeNextRun(now: int, lastRun: Option<int>, days: int, h: int, m: int) returns (next: Option<int>)
    ensures next == NextRun(now, lastRun, days, h, m)
  {
    var candidate := AtTime(now, h, m);
    if candidate <= now {
      candidate := candidate + DAY;
    }
    if lastRun.Some? {
      candidate := AtTime(lastRun.value + days * DAY, h, m);
      if candidate <= now && days <= 0 {
        return None;
      }
      ghost var first := candidate;
      while candidate <= now
        invariant candidate > now ==> days > 0 || candidate == first
        invariant days > 0 ==> Advance(candidate, now, days * DAY) == Advance(first, now, days * DAY)
        decreases now - candidate
      {
        candidate := candidate + days * DAY;
      }
    }
    next := Some(candidate);
  }

  /** Whenever a time is armed, it is ahead of now, so the timer's delay is positive, provided
      that, without a last run, h:m is not before midnight (a negative hour reaches back into
      earlier days, and one day later can still be past). */
  lemma NextRunIsAhead(now: int, lastRun: Option<int>, days: int, h: int, m: int)
    requires lastRun.None? ==> h * HOUR + m * MINUTE >= 0
    ensures var r := NextRun(now, lastRun, days, h, m);
      r.Some? ==> r.value > now
  {
    if lastRun.Some? && days > 0 {
      var first := AtTime(lastRun.value + days * DAY, h, m);
      if first <= now {
        var _ := AdvanceShape(first, now, days * DAY);
      }
    }
  }

  /** No next run exactly when a last run is known, `days` is not positive and the first
      candidate is not ahead of now; then the source's loop never ends: stepping by a
      non-positive interval, every candidate it reaches stays at or before now. */
  lemma NextRunDefined(now: int, lastRun: Option<int>, days: int, h: int, m: int)
    ensures NextRun(now, lastRun, days, h, m).None? <==>
      lastRun.Some? && days <= 0 && AtTime(lastRun.value + days * DAY, h, m) <= now
    ensures NextRun(now, lastRun, days, h, m).None? ==>
      forall k: nat :: AtTime(lastRun.value + days * DAY, h, m) + k * (days * DAY) <= now
  {
    if NextRun(now, lastRun, days, h, m).None? {
      var first := AtTime(lastRun.value + days * DAY, h, m);
      forall k: nat ensures first + k * (days * DAY) <= now {
        NonPositiveSteps(k, days * DAY);
      }
    }
  }

  /** A whole number of non-positive steps moves nowhere forward. */
  lemma NonPositiveSteps(k: nat, step: int)
    requires step <= 0
    ensures k * step <= 0
  {
  }

  /** With no last run and a real time of day, the next run is at that time of day, ahead of
      now and at most one day ahead. */
  lemma NextRunWithoutLastRun(now: int, days: int, h: int, m: int)
    requires 0 <= h < 24 && 0 <= m < 60
    ensures var r := NextRun(now, None, days, h, m);
      && r.Some?
      && now < r.value <= now + DAY
      && r.value % DAY == h * HOUR + m * MINUTE
      && (r.value == AtTime(now, h, m) || r.value == AtTime(now, h, m) + DAY)
  {
    var today := AtTime(now, h, m);
    assert 0 <= h * HOUR + m * MINUTE < DAY;
    assert (DayStart(now) + (h * HOUR + m * MINUTE)) % DAY == h * HOUR + m * MINUTE;
    assert (DayStart(now) + DAY + (h * HOUR + m * MINUTE)) % DAY == h * HOUR + m * MINUTE;
  }

  /** With a last run and a positive interval, the next run is the last run's day plus k whole
      intervals, at h:m, for the smallest k >= 1 that lands ahead of now. */
  lemma NextRunFromLastRun(now: int, last: int, days: int, h: int, m: int) returns (k: nat)
    requires days >= 1
    ensures var r := NextRun(now, Some(last), days, h, m);
      && k >= 1
      && r == Some(AtTime(last, h, m) + k * (days * DAY))
      && r.value > now
      && forall j :: 1 <= j < k ==> AtTime(last, h, m) + j * (days * DAY) <= now
  {
    var step := days * DAY;
    DayStartShift(last, days);
    var base := AtTime(last, h, m);
    var first := AtTime(last + days * DAY, h, m);
    assert first == base + step;
    if now < first {
      k := 1;
    } else {
      var k' := AdvanceShape(first, now, step);
      k := k' + 1;
      assert first + k' * step == base + k * step;
      forall j | 1 <= j < k
        ensures base + j * step <= now
      {
        assert base + j * step == first + (j - 1) * step;
      }
    }
  }

  /** The longest delay Node's `setTimeout` honours: 2^31 - 1 ms, about 24.8 days. */
  const MAX_TIMEOUT: int := 2147483647

  /** The delay Node's `setTimeout` actually waits: a delay from 1 to MAX_TIMEOUT ms as given,
      any other (a longer one included) 1 ms. */
  function TimeoutDelay(ms: int): (d: int)
    ensures 1 <= d <= MAX_TIMEOUT
    ensures d == ms <==> 1 <= ms <= MAX_TIMEOUT
    ensures ms > MAX_TIMEOUT ==> d == 1
  {
    if 1 <= ms <= MAX_TIMEOUT then ms else 1
  }

  /** As written, an interval of 26 days or more makes the timer armed after a run that answers
      within the hour expire 1 ms later: the planned delay exceeds MAX_TIMEOUT. */
  lemma LongIntervalRefiresAtOnce(now: int, last: int, days: int, h: int, m: int)
    requires days >= 26 && h * HOUR + m * MINUTE >= 0
    requires last <= now <= last + HOUR
    ensures NextRun(now, Some(last), days, h, m).Some?
    ensures NextRun(now, Some(last), days, h, m).value - now > MAX_TIMEOUT
    ensures TimeoutDelay(NextRun(now, Some(last), days, h, m).value - now) == 1
  {
    var first := AtTime(last + days * DAY, h, m);
    DayStartShift(last, days);
    assert DayStart(last) > last - DAY;
    assert first > now + MAX_TIMEOUT;
  }

  /** The delay a corrected `scheduleNextRun` would pass: never more than Node honours. */
  function SafeDelay(ms: int): (d: int)
    requires ms >= 1
    ensures 1 <= d <= ms && d <= MAX_TIMEOUT
    ensures TimeoutDelay(d) == d
    ensures ms <= MAX_TIMEOUT ==> d == ms
  {
    if ms > MAX_TIMEOUT then MAX_TIMEOUT else ms
  }

  /** The corrected arming: wait out a long delay in chunks Node honours, re-arming at each expiry
      until the planned time. Every chunk, the first from now and each later one from the previous
      expiry, is waited as given; the expiries all lie ahead of now, only the last reaches the
      planned time, and a delay that fits takes the single timer the code arms. */
  function ChainedExpiries(now: int, target: int): (fires: seq<int>)
    requires now < target
    ensures |fires| >= 1 && fires[|fires| - 1] == target
    ensures fires[0] - now == TimeoutDelay(fires[0] - now)
    ensures forall i :: 0 <= i < |fires| - 1 ==> fires[i + 1] - fires[i] == TimeoutDelay(fires[i + 1] - fires[i])
    ensures forall i :: 0 <= i < |fires| ==> now < fires[i] <= target
    ensures forall i :: 0 <= i < |fires| - 1 ==> fires[i] < target
    ensures target - now <= MAX_TIMEOUT ==> fires == [now + TimeoutDelay(target - now)]
    decreases target - now
  {
    var next := now + TimeoutDelay(SafeDelay(target - now));
    if next == target then [next] else [next] + ChainedExpiries(next, target)
  }

  /** A timer handle; `live` until it fires or is cleared (a fired or cleared handle stays held). */
  datatype Timer = Timer(due: int, live: bool)

  /** The module's state: `intervalJob` and `lastRunDate`, the interval and time of day the last
      start captured, and what the module holds no handle to: armed timers whose handle was
      overwritten, one-hour retry timers, and runs awaiting the batch answer. */
  class IntervalScheduler {
    var intervalJob: Option<Timer>
    var lastRunDate: Option<int>
    var days: int
    var hour: int
    var minute: int
    var orphans: seq<int>
    var retries: seq<int>
    var inFlight: nat

    /** The interval is positive, so `scheduleNextRun` always ends. */
    predicate Valid()
      reads this
    {
      days >= 1
    }

    /** `getIntervalCronStatus()`: `isRunning` is whether a handle is held, `lastRun` the last fire. */
    function Status(): (status: (bool, Option<int>))
      reads this
      ensures status.0 <==> intervalJob.Some?
      ensures status.1 == lastRunDate
    {
      (intervalJob != None, lastRunDate)
    }

    /** Module load: nothing armed, no last run (the defaults of `startIntervalCron`). */
    constructor ()
      ensures Valid()
      ensures intervalJob == None && lastRunDate == None
      ensures orphans == [] && retries == [] && inFlight == 0
    {
      intervalJob, lastRunDate := None, None;
      days, hour, minute := 3, 8, 0;
      orphans, retries, inFlight := [], [], 0;
    }

    /** `scheduleNextRun`: arm a timer for the next run and hold its handle. Node waits the delay
        only when it fits in MAX_TIMEOUT; a longer one, or a next run already past (a time of
        day before midnight without a last run), expires after 1 ms. A handle still live is
        overwritten without being cleared, so that timer stays armed, orphaned. */
    method Arm(now: int)
      requires Valid()
      modifies this
      ensures Valid()
      ensures NextRun(now, lastRunDate, days, hour, minute).Some?
      ensures intervalJob == Some(Timer(now + TimeoutDelay(NextRun(now, lastRunDate, days, hour, minute).value - now), true))
      ensures intervalJob.value.due > now
      ensures lastRunDate.Some? || hour * HOUR + minute * MINUTE >= 0 ==>
        NextRun(now, lastRunDate, days, hour, minute).value > now
      ensures 1 <= NextRun(now, lastRunDate, days, hour, minute).value - now <= MAX_TIMEOUT ==>
        intervalJob.value.due == NextRun(now, lastRunDate, days, hour, minute).value
      ensures NextRun(now, lastRunDate, days, hour, minute).value <= now ==> intervalJob.value.due == now + 1
      ensures orphans == old(orphans) + (if old(intervalJob).Some? && old(intervalJob).value.live then [old(intervalJob).value.due] else [])
      ensures lastRunDate == old(lastRunDate) && days == old(days) && hour == old(hour) && minute == old(minute)
      ensures retries == old(retries) && inFlight == old(inFlight)
    {
      if lastRunDate.Some? || hour * HOUR + minute * MINUTE >= 0 {
        NextRunIsAhead(now, lastRunDate, days, hour, minute);
      }
      var next := ComputeNextRun(now, lastRunDate, days, hour, minute);
      var msUntilNextRun := next.value - now;
      if intervalJob.Some? && intervalJob.value.live {
        orphans := orphans + [intervalJob.value.due];
      }
      intervalJob := Some(Timer(now + TimeoutDelay(msUntilNextRun), true));
    }

    /** `startIntervalCron(d, h, m)`: clear the held timer, then arm the next run. The last run
        is kept, so the cadence continues from it. */
    method Start(d: int, h: int, m: int, now: int) returns (job: Option<Timer>)
      requires d >= 1
      modifies this
      ensures Valid()
      ensures days == d && hour == h && minute == m
      ensures lastRunDate == old(lastRunDate)
      ensures job == intervalJob && Status().0
      ensures intervalJob == Some(Timer(now + TimeoutDelay(NextRun(now, lastRunDate, d, h, m).value - now), true))
      ensures intervalJob.value.due > now
      ensures orphans == old(orphans) && retries == old(retries) && inFlight == old(inFlight)
    {
      if intervalJob.Some? {
        intervalJob := Some(Timer(intervalJob.value.due, false));
      }
      days, hour, minute := d, h, m;
      Arm(now);
      job := intervalJob;
    }

    /** The held timer expires: `runEmailJob` records the fire time as the last run before the
        batch call is made, whatever its outcome. The spent handle stays held. */
    method Fire(now: int)
      requires intervalJob.Some? && intervalJob.value.live && now >= intervalJob.value.due
      modifies this
      ensures intervalJob == Some(Timer(old(intervalJob).value.due, false))
      ensures lastRunDate == Some(now)
      ensures inFlight == old(inFlight) + 1
      ensures Status().0
      ensures days == old(days) && hour == old(hour) && minute == old(minute)
      ensures orphans == old(orphans) && retries == old(retries)
    {
      intervalJob := Some(Timer(intervalJob.value.due, false));
      lastRunDate := Some(now);
      inFlight := inFlight + 1;
    }

    /** An orphaned timer expires: it runs the job all the same. */
    method FireOrphan(i: nat, now: int)
      requires i < |orphans| && now >= orphans[i]
      modifies this
      ensures orphans == old(orphans[..i] + orphans[i + 1..])
      ensures lastRunDate == Some(now)
      ensures inFlight == old(inFlight) + 1
      ensures intervalJob == old(intervalJob) && retries == old(retries)
      ensures days == old(days) && hour == old(hour) && minute == old(minute)
    {
      orphans := orphans[..i] + orphans[i + 1..];
      lastRunDate := Some(now);
      inFlight := inFlight + 1;
    }

    /** A run's batch call settles: on an answer the next run is armed at once (a handle still
        live, armed by a start made meanwhile, is overwritten and its timer stays armed as an
        orphan); on an error a retry timer is armed for one hour later, whose handle the module
        does not keep. */
    method Complete(now: int, answered: bool)
      requires Valid() && inFlight > 0
      modifies this
      ensures Valid()
      ensures inFlight == old(inFlight) - 1
      ensures lastRunDate == old(lastRunDate)
      ensures answered ==>
        intervalJob == Some(Timer(now + TimeoutDelay(NextRun(now, lastRunDate, days, hour, minute).value - now), true))
      ensures answered ==> intervalJob.value.due > now && retries == old(retries)
      ensures answered ==>
        orphans == old(orphans) + (if old(intervalJob).Some? && old(intervalJob).value.live then [old(intervalJob).value.due] else [])
      ensures !answered ==> intervalJob == old(intervalJob) && retries == old(retries) + [now + HOUR]
      ensures !answered ==> orphans == old(orphans)
      ensures days == old(days) && hour == old(hour) && minute == old(minute)
    {
      inFlight := inFlight - 1;
      if answered {
        Arm(now);
      } else {
        retries := retries + [now + HOUR];
      }
    }

    /** A retry timer expires: it arms the next run. */
    method FireRetry(i: nat, now: int)
      requires Valid() && i < |retries| && now >= retries[i]
      modifies this
      ensures Valid()
      ensures retries == old(retries[..i] + retries[i + 1..])
      ensures intervalJob == Some(Timer(now + TimeoutDelay(NextRun(now, lastRunDate, days, hour, minute).value - now), true))
      ensures intervalJob.value.due > now
      ensures lastRunDate == old(lastRunDate) && inFlight == old(inFlight)
      ensures orphans == old(orphans) +
        (if old(intervalJob).Some? && old(intervalJob).value.live then [old(intervalJob).value.due] else [])
      ensures days == old(days) && hour == old(hour) && minute == old(minute)
    {
      retries := retries[..i] + retries[i + 1..];
      Arm(now);
    }

    /** `stopIntervalCron()`: with a handle held, clear it and forget the handle and the last run;
        without one, nothing changes. Orphaned timers, retries and runs in flight are untouched. */
    method Stop()
      modifies this
      ensures old(intervalJob).Some? ==> intervalJob == None && lastRunDate == None
      ensures old(intervalJob).None? ==> intervalJob == old(intervalJob) && lastRunDate == old(lastRunDate)
      ensures !Status().0
      ensures orphans == old(orphans) && retries == old(retries) && inFlight == old(inFlight)
      ensures days == old(days) && hour == old(hour) && minute == old(minute)
    {
      if intervalJob.Some? {
        intervalJob := None;
        lastRunDate := None;
      }
    }
  }

  /** A retry left armed by a failed run re-arms a stopped scheduler (stopped once or twice):
      `stop` does not cancel a retry already scheduled. */
  method StopThenRetry(s: IntervalScheduler, now: int)
    requires s.Valid() && |s.retries| > 0 && now >= s.retries[0]
    modifies s
    ensures s.Status().0 && s.intervalJob.value.due > now
  {
    s.Stop();
    s.Stop();
    assert !s.Status().0;
    s.FireRetry(0, now);
  }

  /** With an interval of 26 days or more, a run that answers within the hour arms a timer
      that expires 1 ms later, so the next run follows at once and again records its fire time. */
  method BackToBack(s: IntervalScheduler, now: int)
    requires s.Valid() && s.days >= 26 && s.hour * HOUR + s.minute * MINUTE >= 0 && s.inFlight > 0
    requires s.lastRunDate.Some? && s.lastRunDate.value <= now <= s.lastRunDate.value + HOUR
    modifies s
    ensures s.lastRunDate == Some(now + 1) && s.inFlight == old(s.inFlight)
  {
    LongIntervalRefiresAtOnce(now, s.lastRunDate.value, s.days, s.hour, s.minute);
    s.Complete(now, true);
    assert s.intervalJob == Some(Timer(now + 1, true));
    s.Fire(now + 1);
  }

  /** A run still awaiting its answer when the scheduler is stopped re-arms it on completion:
      `stop` does not end the runs in flight. */
  method StopThenComplete(s: IntervalScheduler, now: int)
    requires s.Valid() && s.inFlight > 0
    modifies s
    ensures s.Status().0 && s.intervalJob.value.due > now
  {
    s.Stop();
    s.Complete(now, true);
  }
}

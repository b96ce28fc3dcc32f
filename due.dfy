/**
 * The due predicate `Task::should_run`, the elapsed-time arithmetic it relies
 * on, and the selection of due task indices that the scheduler loops compute.
 */
module Due {
  import opened Wrappers
  import opened Model

  const SecondsPerHour: int := 3600
  const SecondsPerDay: int := 86400
  const DaysPerWeek: int := 7

  /** Division of a signed duration that truncates toward zero, as Rust's `/` on `i64` does. */
  function TruncDiv(a: int, d: int): (q: int)
    requires d > 0
    ensures a >= 0 ==> 0 <= q && q * d <= a < q * d + d
    ensures a < 0 ==> q <= 0 && q * d - d < a <= q * d
  {
    if a >= 0 then
      DivBounds(a, d);
      a / d
    else
      DivBounds(-a, d);
      -((-a) / d)
  }

  /** Euclidean division of a non-negative number brackets it between two multiples. */
  lemma DivBounds(a: int, d: int)
    requires a >= 0 && d > 0
    ensures 0 <= a / d && (a / d) * d <= a < (a / d) * d + d
    ensures (-(a / d)) * d == -((a / d) * d)
  {
    var q, r := a / d, a % d;
    assert a == d * q + r && 0 <= r < d;
    assert d * q == q * d;
  }

  /** chrono's `Duration::num_hours`, for a duration of `secs` seconds. */
  function NumHours(secs: int): int { TruncDiv(secs, SecondsPerHour) }

  /** chrono's `Duration::num_days`. */
  function NumDays(secs: int): int { TruncDiv(secs, SecondsPerDay) }

  /** chrono's `Duration::num_weeks`, which chrono defines as whole days divided by seven. */
  function NumWeeks(secs: int): int { TruncDiv(NumDays(secs), DaysPerWeek) }

  /** Whole units of the task's interval in a duration of `secs` seconds. */
  function ElapsedUnits(iv: Interval, secs: int): int
  {
    match iv
    case Hourly => NumHours(secs)
    case Daily => NumDays(secs)
    case Weekly => NumWeeks(secs)
  }

  /** The length of one interval, in seconds. */
  function PeriodSeconds(iv: Interval): (p: int)
    ensures p > 0
  {
    match iv
    case Hourly => SecondsPerHour
    case Daily => SecondsPerDay
    case Weekly => DaysPerWeek * SecondsPerDay
  }

  /** `Task::should_run`: enabled, and either never run or at least one whole interval ago. */
  predicate ShouldRun(t: Task, now: Instant)
  {
    if !t.enabled then false
    else match t.lastRun
      case None => true
      case Some(last) => ElapsedUnits(t.interval, now - last) >= 1
  }

  /** At least `k` whole units have elapsed exactly when the duration reaches `k` units. */
  lemma TruncDivAtLeast(a: int, d: int, k: int)
    requires d > 0 && k >= 1
    ensures TruncDiv(a, d) >= k <==> a >= k * d
  {
    var q := TruncDiv(a, d);
    if a < 0 {
      assert q <= 0 < k;
      assert k * d > 0;
    } else if q >= k {
      assert q * d >= k * d by { MulMonotone(k, q, d); }
    } else {
      assert q + 1 <= k;
      assert (q + 1) * d <= k * d by { MulMonotone(q + 1, k, d); }
    }
  }

  lemma MulMonotone(x: int, y: int, d: int)
    requires x <= y && d > 0
    ensures x * d <= y * d
  {
    assert y * d - x * d == (y - x) * d;
  }

  /** Each interval's count reaches one exactly when a full period has elapsed. */
  lemma {:induction false} ElapsedUnitsAtLeastOne(iv: Interval, secs: int)
    ensures ElapsedUnits(iv, secs) >= 1 <==> secs >= PeriodSeconds(iv)
  {
    match iv
    case Hourly => TruncDivAtLeast(secs, SecondsPerHour, 1);
    case Daily => TruncDivAtLeast(secs, SecondsPerDay, 1);
    case Weekly =>
      TruncDivAtLeast(NumDays(secs), DaysPerWeek, 1);
      TruncDivAtLeast(secs, SecondsPerDay, DaysPerWeek);
  }

  /** The due rule in plain terms: enabled, and never run or at least one full period ago. */
  lemma DueIff(t: Task, now: Instant)
    ensures ShouldRun(t, now) <==>
      t.enabled && (t.lastRun.None? || now - t.lastRun.value >= PeriodSeconds(t.interval))
  {
    if t.lastRun.Some? {
      ElapsedUnitsAtLeastOne(t.interval, now - t.lastRun.value);
    }
  }

  /** A disabled task is never due, whatever its timestamps. */
  lemma DisabledNeverDue(t: Task, now: Instant)
    requires !t.enabled
    ensures !ShouldRun(t, now)
  {
  }

  /** An enabled task that has never run is always due. */
  lemma NeverRunIsDue(t: Task, now: Instant)
    requires t.enabled && t.lastRun == None
    ensures ShouldRun(t, now)
  {
  }

  /** A last run at or after `now` (clock skew, manual edits) never makes a task due. */
  lemma FutureLastRunNotDue(t: Task, now: Instant)
    requires t.lastRun.Some? && t.lastRun.value >= now
    ensures !ShouldRun(t, now)
  {
    DueIff(t, now);
  }

  /** A task just marked complete is not due at the same instant. */
  lemma MarkedNotDue(t: Task, now: Instant)
    ensures !ShouldRun(MarkComplete(t, now), now)
  {
    FutureLastRunNotDue(MarkComplete(t, now), now);
  }

  /** A freshly created task is disabled, hence not due. */
  lemma NewTaskNotDue(name: string, iv: Interval, now: Instant)
    ensures !ShouldRun(NewTask(name, iv), now)
  {
  }

  /** The cases the library's unit tests exercise, with `now` arbitrary. */
  lemma DueExamples(name: string, now: Instant)
    ensures ShouldRun(Task(name, Hourly, Some(now - 2 * SecondsPerHour), true), now)
    ensures !ShouldRun(Task(name, Hourly, Some(now - 30 * 60), true), now)
    ensures ShouldRun(Task(name, Daily, Some(now - 2 * SecondsPerDay), true), now)
    ensures !ShouldRun(Task(name, Daily, Some(now - 23 * SecondsPerHour), true), now)
    ensures ShouldRun(Task(name, Weekly, Some(now - 14 * SecondsPerDay), true), now)
    ensures !ShouldRun(Task(name, Weekly, Some(now - 6 * SecondsPerDay), true), now)
    ensures !ShouldRun(Task(name, Daily, Some(now + SecondsPerDay), true), now)
    ensures ShouldRun(Task(name, Hourly, None, true), now)
    ensures !ShouldRun(Task(name, Hourly, None, false), now)
  {
    DueIff(Task(name, Hourly, Some(now - 2 * SecondsPerHour), true), now);
    DueIff(Task(name, Hourly, Some(now - 30 * 60), true), now);
    DueIff(Task(name, Daily, Some(now - 2 * SecondsPerDay), true), now);
    DueIff(Task(name, Daily, Some(now - 23 * SecondsPerHour), true), now);
    DueIff(Task(name, Weekly, Some(now - 14 * SecondsPerDay), true), now);
    DueIff(Task(name, Weekly, Some(now - 6 * SecondsPerDay), true), now);
    DueIff(Task(name, Daily, Some(now + SecondsPerDay), true), now);
  }

  /**
   * Which due rule a selection loop applies: the interval rule of `should_run`,
   * or the early command-line check that asks for one elapsed hour whatever the interval.
   */
  datatype Rule = ByInterval | EveryHour

  predicate Fires(rule: Rule, t: Task, now: Instant)
  {
    match rule
    case ByInterval => ShouldRun(t, now)
    case EveryHour => t.enabled && (t.lastRun.None? || NumHours(now - t.lastRun.value) >= 1)
  }

  /** Under the hour rule: enabled, and never run or at least an hour ago. */
  lemma EveryHourIff(t: Task, now: Instant)
    ensures Fires(EveryHour, t, now) <==>
      t.enabled && (t.lastRun.None? || now - t.lastRun.value >= SecondsPerHour)
  {
    if t.lastRun.Some? {
      TruncDivAtLeast(now - t.lastRun.value, SecondsPerHour, 1);
    }
  }

  /** Under either rule a firing task is enabled. */
  lemma FiresOnlyEnabled(rule: Rule, t: Task, now: Instant)
    requires Fires(rule, t, now)
    ensures t.enabled
  {
  }

  /** The indices below `n` whose task fires, in increasing order. */
  function DueIndices(tasks: seq<Task>, rule: Rule, now: Instant, n: nat): seq<nat>
    requires n <= |tasks|
  {
    if n == 0 then []
    else DueIndices(tasks, rule, now, n - 1) + (if Fires(rule, tasks[n - 1], now) then [n - 1] else [])
  }

  /** The selection is strictly increasing, in range, and holds exactly the firing tasks. */
  lemma {:induction false} DueIndicesSpec(tasks: seq<Task>, rule: Rule, now: Instant, n: nat)
    requires n <= |tasks|
    ensures forall k :: 0 <= k < |DueIndices(tasks, rule, now, n)| ==> DueIndices(tasks, rule, now, n)[k] < n
    ensures forall k, l :: 0 <= k < l < |DueIndices(tasks, rule, now, n)| ==>
      DueIndices(tasks, rule, now, n)[k] < DueIndices(tasks, rule, now, n)[l]
    ensures forall i :: 0 <= i < n ==> (i in DueIndices(tasks, rule, now, n) <==> Fires(rule, tasks[i], now))
  {
    if n > 0 {
      DueIndicesSpec(tasks, rule, now, n - 1);
    }
  }
}

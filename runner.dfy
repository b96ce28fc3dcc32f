/**
 * The scheduler snapshot: `tasks_to_run` selects the due tasks and the
 * runner stamps each of them as run.
 */
module Runner {
  import opened Wrappers
  import opened Model
  import opened Due
  import opened TaskList
  import opened SnapshotStore

  /** `tasks_to_run`: the indices of the due tasks, in increasing order. */
  method TasksToRun(tasks: seq<Task>, now: Instant) returns (out: seq<nat>)
    ensures out == DueIndices(tasks, ByInterval, now, |tasks|)
    ensures forall k :: 0 <= k < |out| ==> out[k] < |tasks|
    ensures forall k, l :: 0 <= k < l < |out| ==> out[k] < out[l]
    ensures forall i :: 0 <= i < |tasks| ==> (i in out <==> ShouldRun(tasks[i], now))
  {
    out := [];
    var i := 0;
    while i < |tasks|
      invariant 0 <= i <= |tasks|
      invariant out == DueIndices(tasks, ByInterval, now, i)
    {
      var t := tasks[i];
      if !t.enabled {
        i := i + 1;
        continue;
      }
      var should := true;
      if t.lastRun.Some? {
        var elapsed := now - t.lastRun.value;
        match t.interval
        case Hourly => should := NumHours(elapsed) >= 1;
        case Daily => should := NumDays(elapsed) >= 1;
        case Weekly => should := NumWeeks(elapsed) >= 1;
      }
      if should {
        out := out + [i];
      }
      i := i + 1;
    }
    DueIndicesSpec(tasks, ByInterval, now, |tasks|);
  }

  /** The runner's loop: `tasks[idx].last_run = Some(now)` for each selected index. */
  method MarkRun(tasks: seq<Task>, toRun: seq<nat>, now: Instant) returns (after: seq<Task>)
    requires forall k :: 0 <= k < |toRun| ==> toRun[k] < |tasks|
    ensures after == Stamp(tasks, toRun, now)
    ensures |after| == |tasks|
    ensures forall i :: 0 <= i < |tasks| ==>
      after[i] == if i in toRun then MarkComplete(tasks[i], now) else tasks[i]
  {
    after := tasks;
    for k := 0 to |toRun|
      invariant after == Stamp(tasks, toRun[..k], now)
    {
      var idx := toRun[k];
      after := after[idx := after[idx].(lastRun := Some(now))];
      assert toRun[..k + 1][..k] == toRun[..k];
    }
    assert toRun[..|toRun|] == toRun;
  }

  /**
   * `main`: load (an unloadable file is the empty list), stamp every due task,
   * save. After the pass no task of the saved list is due at that instant.
   */
  method RunOnce(stored: Stored, now: Instant, saveOk: bool) returns (after: Stored, ran: seq<nat>)
    ensures ran == DueIndices(LoadOrDefault(stored), ByInterval, now, |LoadOrDefault(stored)|)
    ensures after == Saved(stored, Stamp(LoadOrDefault(stored), ran, now), saveOk)
    ensures saveOk ==> forall i :: 0 <= i < |LoadOrDefault(after)| ==> !ShouldRun(LoadOrDefault(after)[i], now)
  {
    var tasks := LoadOrDefault(stored);
    ran := TasksToRun(tasks, now);
    tasks := MarkRun(tasks, ran, now);
    after := Saved(stored, tasks, saveOk);
    StampDueClears(LoadOrDefault(stored), now);
  }
}

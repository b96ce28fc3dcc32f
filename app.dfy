/**
 * The desktop application: the due check it runs on every tick, the order in
 * which the overview lists the tasks, and the arms of `TaskScheduler::update`
 * that change the task list.
 */
module App {
  import opened Wrappers
  import opened Model
  import opened Due
  import opened TaskList
  import Text
  import Storage

  /** `check_tasks`: one `(idx, true)` pair per due task, in index order. */
  method CheckTasks(tasks: seq<Task>, now: Instant) returns (results: seq<(nat, bool)>)
    ensures |results| == |DueIndices(tasks, ByInterval, now, |tasks|)|
    ensures forall k :: 0 <= k < |results| ==> results[k] == (DueIndices(tasks, ByInterval, now, |tasks|)[k], true)
    ensures forall k :: 0 <= k < |results| ==> results[k].0 < |tasks|
    ensures forall k, l :: 0 <= k < l < |results| ==> results[k].0 < results[l].0
    ensures forall i :: 0 <= i < |tasks| ==> (i in Indices(results) <==> ShouldRun(tasks[i], now))
  {
    results := [];
    ghost var due: seq<nat> := [];
    for idx := 0 to |tasks|
      invariant due == DueIndices(tasks, ByInterval, now, idx)
      invariant |results| == |due|
      invariant forall k :: 0 <= k < |results| ==> results[k] == (due[k], true)
    {
      var task := tasks[idx];
      if !task.enabled {
        continue;
      }
      var shouldRun := true;
      if task.lastRun.Some? {
        var elapsed := now - task.lastRun.value;
        match task.interval
        case Hourly => shouldRun := NumHours(elapsed) >= 1;
        case Daily => shouldRun := NumDays(elapsed) >= 1;
        case Weekly => shouldRun := NumWeeks(elapsed) >= 1;
      }
      if shouldRun {
        results := results + [(idx, true)];
        due := due + [idx];
      }
    }
    DueIndicesSpec(tasks, ByInterval, now, |tasks|);
    assert Indices(results) == due;
  }

  /** The indices carried by a list of check results. */
  function Indices(updates: seq<(nat, bool)>): (r: seq<nat>)
    ensures |r| == |updates| && forall k :: 0 <= k < |updates| ==> r[k] == updates[k].0
  {
    seq(|updates|, k requires 0 <= k < |updates| => updates[k].0)
  }

  // ---------- The overview order ----------

  /** `0..n`, the identity list of indices the overview starts from. */
  function Range(n: nat): (r: seq<nat>)
    ensures |r| == n && forall i :: 0 <= i < n ==> r[i] == i
  {
    seq(n, i => i)
  }

  /**
   * Whether task `x` is listed before task `y`: by name, ascending or
   * descending, and, for equal names, by index, since `sort_by` is stable
   * and `Ordering::reverse` keeps `Equal`.
   */
  predicate Precedes(tasks: seq<Task>, asc: bool, x: nat, y: nat)
    requires x < |tasks| && y < |tasks|
  {
    var a := tasks[x].name;
    var b := tasks[y].name;
    if a == b then x < y
    else if asc then Text.Less(a, b)
    else Text.Less(b, a)
  }

  lemma PrecedesAsymmetric(tasks: seq<Task>, asc: bool, x: nat, y: nat)
    requires x < |tasks| && y < |tasks|
    requires Precedes(tasks, asc, x, y)
    ensures !Precedes(tasks, asc, y, x)
  {
    var a, b := tasks[x].name, tasks[y].name;
    if a != b {
      if asc { Text.LessAsymmetric(a, b); } else { Text.LessAsymmetric(b, a); }
    }
  }

  lemma PrecedesTotal(tasks: seq<Task>, asc: bool, x: nat, y: nat)
    requires x < |tasks| && y < |tasks| && x != y
    ensures Precedes(tasks, asc, x, y) || Precedes(tasks, asc, y, x)
  {
    var a, b := tasks[x].name, tasks[y].name;
    if a != b {
      Text.LessTotal(a, b);
    }
  }

  lemma PrecedesTransitive(tasks: seq<Task>, asc: bool, x: nat, y: nat, z: nat)
    requires x < |tasks| && y < |tasks| && z < |tasks|
    requires Precedes(tasks, asc, x, y) && Precedes(tasks, asc, y, z)
    ensures Precedes(tasks, asc, x, z)
  {
    var a, b, c := tasks[x].name, tasks[y].name, tasks[z].name;
    if a != b && b != c {
      if asc {
        Text.LessTransitive(a, b, c);
        if a == c { Text.LessAsymmetric(a, b); }
      } else {
        Text.LessTransitive(c, b, a);
        if a == c { Text.LessAsymmetric(b, a); }
      }
    }
  }

  /** "Not listed after": the order the sort establishes between neighbours. */
  predicate NotAfter(tasks: seq<Task>, asc: bool, x: nat, y: nat)
    requires x < |tasks| && y < |tasks|
  {
    !Precedes(tasks, asc, y, x)
  }

  lemma NotAfterTransitive(tasks: seq<Task>, asc: bool, x: nat, y: nat, z: nat)
    requires x < |tasks| && y < |tasks| && z < |tasks|
    requires NotAfter(tasks, asc, x, y) && NotAfter(tasks, asc, y, z)
    ensures NotAfter(tasks, asc, x, z)
  {
    if x != y && y != z && Precedes(tasks, asc, z, x) {
      PrecedesTotal(tasks, asc, x, y);
      PrecedesTotal(tasks, asc, y, z);
      PrecedesTransitive(tasks, asc, x, y, z);
      PrecedesAsymmetric(tasks, asc, x, z);
    }
  }

  /** A rearrangement of `0..n` holds no index twice. */
  lemma PermutationDistinct(s: seq<nat>, n: nat, k: nat, l: nat)
    requires multiset(s) == multiset(Range(n))
    requires k < l < |s|
    ensures s[k] != s[l]
  {
    if s[k] == s[l] {
      var v := s[k];
      assert s == s[..k] + [v] + s[k + 1..l] + [v] + s[l + 1..];
      assert multiset(s)[v] >= 2;
      RangeCount(n, v);
    }
  }

  lemma {:induction false} RangeCount(n: nat, v: nat)
    ensures multiset(Range(n))[v] <= 1
  {
    if n > 0 {
      RangeCount(n - 1, v);
      assert Range(n) == Range(n - 1) + [n - 1];
      if v == n - 1 {
        assert v !in Range(n - 1);
      }
    }
  }

  /** Every entry is an index of `tasks`. */
  predicate InRange(tasks: seq<Task>, s: seq<nat>)
  {
    forall k :: 0 <= k < |s| ==> s[k] < |tasks|
  }

  /** The first `i` entries are in listing order. */
  predicate SortedPrefix(tasks: seq<Task>, asc: bool, s: seq<nat>, i: nat)
    requires InRange(tasks, s)
  {
    forall k, l :: 0 <= k < l < i && l < |s| ==> NotAfter(tasks, asc, s[k], s[l])
  }

  /**
   * Midway through inserting the entry now at `j`: the first `i + 1` entries
   * are in order except around position `j`, and that entry is in order
   * with everything after it.
   */
  predicate Inserting(tasks: seq<Task>, asc: bool, s: seq<nat>, i: nat, j: nat)
    requires InRange(tasks, s)
  {
    && j <= i < |s|
    && (forall k, l :: 0 <= k < l <= i && k != j && l != j ==> NotAfter(tasks, asc, s[k], s[l]))
    && (forall l :: j < l <= i ==> NotAfter(tasks, asc, s[j], s[l]))
  }

  /** Swapping the entry at `j` with a predecessor it precedes keeps `Inserting`, one place left. */
  lemma SwapStep(tasks: seq<Task>, asc: bool, s: seq<nat>, i: nat, j: nat)
    requires InRange(tasks, s) && 0 < j && Inserting(tasks, asc, s, i, j)
    requires Precedes(tasks, asc, s[j], s[j - 1])
    ensures var t := s[j - 1 := s[j]][j := s[j - 1]];
      InRange(tasks, t) && Inserting(tasks, asc, t, i, j - 1) && multiset(t) == multiset(s)
  {
    PrecedesAsymmetric(tasks, asc, s[j], s[j - 1]);
  }

  /** When the entry at `j` no longer precedes its left neighbour, the first `i + 1` entries are in order. */
  lemma InsertDone(tasks: seq<Task>, asc: bool, s: seq<nat>, i: nat, j: nat)
    requires InRange(tasks, s) && Inserting(tasks, asc, s, i, j)
    requires j > 0 ==> !Precedes(tasks, asc, s[j], s[j - 1])
    ensures SortedPrefix(tasks, asc, s, i + 1)
  {
    forall k | 0 <= k < j
      ensures NotAfter(tasks, asc, s[k], s[j])
    {
      if k < j - 1 {
        NotAfterTransitive(tasks, asc, s[k], s[j - 1], s[j]);
      }
    }
  }

  /** One pass of insertion: moves `a[i]` left past every entry it precedes. */
  method InsertAt(tasks: seq<Task>, asc: bool, a: array<nat>, i: nat)
    requires i < a.Length
    requires InRange(tasks, a[..]) && SortedPrefix(tasks, asc, a[..], i)
    modifies a
    ensures multiset(a[..]) == multiset(old(a[..]))
    ensures InRange(tasks, a[..]) && SortedPrefix(tasks, asc, a[..], i + 1)
  {
    var j: nat := i;
    while j > 0 && Precedes(tasks, asc, a[j], a[j - 1])
      invariant multiset(a[..]) == multiset(old(a[..]))
      invariant InRange(tasks, a[..]) && Inserting(tasks, asc, a[..], i, j)
    {
      ghost var before := a[..];
      SwapStep(tasks, asc, before, i, j);
      a[j - 1], a[j] := a[j], a[j - 1];
      assert a[..] == before[j - 1 := before[j]][j := before[j - 1]];
      j := j - 1;
    }
    InsertDone(tasks, asc, a[..], i, j);
  }

  /**
   * The index list `view_overview` renders: `0..len` sorted in place by
   * `Precedes`, here by insertion.
   */
  method OverviewOrder(tasks: seq<Task>, asc: bool) returns (order: seq<nat>)
    ensures |order| == |tasks|
    ensures multiset(order) == multiset(Range(|tasks|))
    ensures forall k :: 0 <= k < |order| ==> order[k] < |tasks|
    ensures forall k, l :: 0 <= k < l < |order| ==> Precedes(tasks, asc, order[k], order[l])
  {
    var n := |tasks|;
    var a := new nat[n](i => i);
    assert a[..] == Range(n);
    for i := 0 to n
      invariant multiset(a[..]) == multiset(Range(n))
      invariant InRange(tasks, a[..]) && SortedPrefix(tasks, asc, a[..], i)
    {
      InsertAt(tasks, asc, a, i);
    }
    order := a[..];
    forall k, l | 0 <= k < l < n
      ensures Precedes(tasks, asc, order[k], order[l])
    {
      PermutationDistinct(order, n, k, l);
      PrecedesTotal(tasks, asc, order[k], order[l]);
    }
  }

  // ---------- The application state ----------

  datatype Screen = Overview | NewTaskScreen | History

  /** The follow-up work an update asks the runtime to perform. */
  datatype Command = NoCommand | SaveCmd(tasks: seq<Task>)

  /**
   * The loop of `TaskCheckComplete` over the reported updates: each index in
   * range is stamped with `now`, and `any` records whether one was.
   */
  method StampReported(tasks: seq<Task>, updates: seq<(nat, bool)>, now: Instant) returns (r: seq<Task>, any: bool)
    ensures r == Stamp(tasks, Indices(updates), now)
    ensures any <==> exists k :: 0 <= k < |updates| && updates[k].0 < |tasks|
  {
    r, any := tasks, false;
    for k := 0 to |updates|
      invariant r == Stamp(tasks, Indices(updates)[..k], now)
      invariant any <==> exists m :: 0 <= m < k && updates[m].0 < |tasks|
    {
      var idx := updates[k].0;
      StampStep(tasks, Indices(updates), k, now);
      if idx < |r| {
        any := true;
        r := r[idx := r[idx].(lastRun := Some(now))];
      }
      assert r == MarkAt(Stamp(tasks, Indices(updates)[..k], now), idx, now);
    }
    assert Indices(updates)[..|updates|] == Indices(updates);
  }

  /** The fields of `TaskScheduler` that the task-list updates read or write. */
  class Scheduler {
    var screen: Screen
    var tasks: seq<Task>
    var taskName: string
    var interval: Interval
    var pendingDelete: Option<nat>
    var sortAsc: bool
    var isLoading: bool

    /** The state `Application::new` starts from, before its first load completes. */
    constructor ()
      ensures screen == Overview && tasks == [] && taskName == "" && interval == Daily
      ensures pendingDelete == None && sortAsc && !isLoading
    {
      screen := Overview;
      tasks := [];
      taskName := "";
      interval := Daily;
      pendingDelete := None;
      sortAsc := true;
      isLoading := false;
    }

    method SwitchTo(s: Screen)
      modifies this
      ensures screen == s
      ensures tasks == old(tasks) && taskName == old(taskName) && interval == old(interval)
      ensures pendingDelete == old(pendingDelete) && sortAsc == old(sortAsc) && isLoading == old(isLoading)
    {
      screen := s;
    }

    method TaskNameChanged(name: string)
      modifies this
      ensures taskName == name
      ensures screen == old(screen) && tasks == old(tasks) && interval == old(interval)
      ensures pendingDelete == old(pendingDelete) && sortAsc == old(sortAsc) && isLoading == old(isLoading)
    {
      taskName := name;
    }

    method IntervalChanged(iv: Interval)
      modifies this
      ensures interval == iv
      ensures screen == old(screen) && tasks == old(tasks) && taskName == old(taskName)
      ensures pendingDelete == old(pendingDelete) && sortAsc == old(sortAsc) && isLoading == old(isLoading)
    {
      interval := iv;
    }

    /**
     * `AddTask`: a name that is blank after trimming changes nothing; any
     * other appends a new, disabled task under the trimmed name, clears the
     * input, returns to the overview and saves the whole list.
     */
    method AddTask() returns (cmd: Command)
      modifies this
      ensures Text.Trim(old(taskName)) == [] ==> cmd == NoCommand && screen == old(screen) && tasks == old(tasks) && taskName == old(taskName)
      ensures Text.Trim(old(taskName)) != [] ==>
        && tasks == old(tasks) + [NewTask(Text.Trim(old(taskName)), old(interval))]
        && taskName == "" && screen == Overview && cmd == SaveCmd(tasks)
      ensures interval == old(interval) && pendingDelete == old(pendingDelete)
      ensures sortAsc == old(sortAsc) && isLoading == old(isLoading)
    {
      var trimmed := Text.Trim(taskName);
      if trimmed == [] {
        return NoCommand;
      }
      tasks := tasks + [NewTask(trimmed, interval)];
      taskName := "";
      screen := Overview;
      return SaveCmd(tasks);
    }

    /** `DeletePressed`: remembers the index to delete, unchecked. */
    method DeletePressed(idx: nat)
      modifies this
      ensures pendingDelete == Some(idx)
      ensures screen == old(screen) && tasks == old(tasks) && taskName == old(taskName)
      ensures interval == old(interval) && sortAsc == old(sortAsc) && isLoading == old(isLoading)
    {
      pendingDelete := Some(idx);
    }

    /**
     * `ConfirmDelete`: always clears the pending index; removes that task and
     * saves only when the index is in range.
     */
    method ConfirmDelete() returns (cmd: Command)
      modifies this
      ensures pendingDelete == None
      ensures old(pendingDelete).Some? && old(pendingDelete).value < |old(tasks)| ==>
        tasks == RemoveAt(old(tasks), old(pendingDelete).value) && cmd == SaveCmd(tasks)
      ensures !(old(pendingDelete).Some? && old(pendingDelete).value < |old(tasks)|) ==>
        tasks == old(tasks) && cmd == NoCommand
      ensures screen == old(screen) && taskName == old(taskName) && interval == old(interval)
      ensures sortAsc == old(sortAsc) && isLoading == old(isLoading)
    {
      var pending := pendingDelete;
      pendingDelete := None;
      if pending.Some? && pending.value < |tasks| {
        tasks := RemoveAt(tasks, pending.value);
        return SaveCmd(tasks);
      }
      return NoCommand;
    }

    /** `CancelDelete`: forgets the pending index and nothing else. */
    method CancelDelete()
      modifies this
      ensures pendingDelete == None
      ensures screen == old(screen) && tasks == old(tasks) && taskName == old(taskName)
      ensures interval == old(interval) && sortAsc == old(sortAsc) && isLoading == old(isLoading)
    {
      pendingDelete := None;
    }

    /** `ToggleEnable`: flips task `idx` and saves; an index out of range is ignored. */
    method ToggleEnable(idx: nat) returns (cmd: Command)
      modifies this
      ensures tasks == Toggle(old(tasks), idx)
      ensures cmd == if idx < |old(tasks)| then SaveCmd(tasks) else NoCommand
      ensures screen == old(screen) && taskName == old(taskName) && interval == old(interval)
      ensures pendingDelete == old(pendingDelete) && sortAsc == old(sortAsc) && isLoading == old(isLoading)
    {
      if idx < |tasks| {
        tasks := tasks[idx := tasks[idx].(enabled := !tasks[idx].enabled)];
        return SaveCmd(tasks);
      }
      return NoCommand;
    }

    /**
     * `TaskCheckComplete`: stamps every reported index that is in range with
     * `now`, skips the others, and saves only when some index was in range.
     */
    method TaskCheckComplete(updates: seq<(nat, bool)>, now: Instant) returns (cmd: Command)
      modifies this
      ensures tasks == Stamp(old(tasks), Indices(updates), now)
      ensures (exists k :: 0 <= k < |updates| && updates[k].0 < |old(tasks)|) ==> cmd == SaveCmd(tasks)
      ensures (forall k :: 0 <= k < |updates| ==> updates[k].0 >= |old(tasks)|) ==> cmd == NoCommand
      ensures screen == old(screen) && taskName == old(taskName) && interval == old(interval)
      ensures pendingDelete == old(pendingDelete) && sortAsc == old(sortAsc) && isLoading == old(isLoading)
    {
      var stamped, anyUpdates := StampReported(tasks, updates, now);
      tasks := stamped;
      if anyUpdates {
        return SaveCmd(tasks);
      }
      return NoCommand;
    }

    /** `LoadResult`: a loaded list replaces the tasks; an error keeps them. */
    method LoadResult(res: Result<seq<Task>, Storage.Error>)
      modifies this
      ensures !isLoading
      ensures tasks == if res.Ok? then res.value else old(tasks)
      ensures screen == old(screen) && taskName == old(taskName) && interval == old(interval)
      ensures pendingDelete == old(pendingDelete) && sortAsc == old(sortAsc)
    {
      isLoading := false;
      if res.Ok? {
        tasks := res.value;
      }
    }

    /** `ToggleSort`: flips the direction of the overview. */
    method ToggleSort()
      modifies this
      ensures sortAsc == !old(sortAsc)
      ensures screen == old(screen) && tasks == old(tasks) && taskName == old(taskName)
      ensures interval == old(interval) && pendingDelete == old(pendingDelete) && isLoading == old(isLoading)
    {
      sortAsc := !sortAsc;
    }
  }

  /**
   * One tick of the application: the due check, then its completion message.
   * Afterwards nothing is due at that instant, and a save is requested
   * exactly when some task was due.
   */
  method Tick(app: Scheduler, now: Instant) returns (cmd: Command)
    modifies app
    ensures app.tasks == Stamp(old(app.tasks), DueIndices(old(app.tasks), ByInterval, now, |old(app.tasks)|), now)
    ensures forall i :: 0 <= i < |app.tasks| ==> !ShouldRun(app.tasks[i], now)
    ensures (exists i :: 0 <= i < |old(app.tasks)| && ShouldRun(old(app.tasks)[i], now)) <==> cmd.SaveCmd?
  {
    var results := CheckTasks(app.tasks, now);
    ghost var before := app.tasks;
    assert Indices(results) == DueIndices(before, ByInterval, now, |before|);
    cmd := app.TaskCheckComplete(results, now);
    StampDueClears(before, now);
    if exists i :: 0 <= i < |before| && ShouldRun(before[i], now) {
      var i :| 0 <= i < |before| && ShouldRun(before[i], now);
      assert i in Indices(results);
    }
  }

  /** Flipping a task twice restores the list, so `ToggleEnable` is its own inverse. */
  method ToggleTwiceRestores(app: Scheduler, idx: nat)
    modifies app
    ensures app.tasks == old(app.tasks)
  {
    var first := app.ToggleEnable(idx);
    var second := app.ToggleEnable(idx);
    ToggleTwice(old(app.tasks), idx);
  }
}

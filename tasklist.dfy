/**
 * The in-place edits the front ends make to a task vector: stamping
 * `last_run` at a list of indices, flipping `enabled`, and removing a task.
 */
module TaskList {
  import opened Wrappers
  import opened Model
  import opened Due

  /** `tasks[idx].last_run = Some(now)` when `idx` is in range; nothing otherwise. */
  function MarkAt(s: seq<Task>, idx: nat, now: Instant): (r: seq<Task>)
    ensures |r| == |s|
    ensures forall i :: 0 <= i < |s| ==> r[i] == if i == idx then MarkComplete(s[i], now) else s[i]
  {
    if idx < |s| then s[idx := MarkComplete(s[idx], now)] else s
  }

  /** The vector after stamping each index of `idxs`, in order. */
  function Stamp(s: seq<Task>, idxs: seq<nat>, now: Instant): (r: seq<Task>)
    ensures |r| == |s|
    ensures forall i :: 0 <= i < |s| ==> r[i] == if i in idxs then MarkComplete(s[i], now) else s[i]
    decreases |idxs|
  {
    if idxs == [] then s
    else
      var prefix := idxs[..|idxs| - 1];
      var r := MarkAt(Stamp(s, prefix, now), idxs[|idxs| - 1], now);
      assert forall i :: i in idxs <==> i in prefix || i == idxs[|idxs| - 1] by {
        assert idxs == prefix + [idxs[|idxs| - 1]];
      }
      r
  }

  /** Stamping one more index of the list is one more `MarkAt`. */
  lemma StampStep(s: seq<Task>, idxs: seq<nat>, k: nat, now: Instant)
    requires k < |idxs|
    ensures Stamp(s, idxs[..k + 1], now) == MarkAt(Stamp(s, idxs[..k], now), idxs[k], now)
  {
    assert idxs[..k + 1][..k] == idxs[..k];
  }

  /** Once every due task has been stamped, no task is due at that same instant. */
  lemma StampDueClears(s: seq<Task>, now: Instant)
    ensures forall i :: 0 <= i < |s| ==> !ShouldRun(Stamp(s, DueIndices(s, ByInterval, now, |s|), now)[i], now)
  {
    var due := DueIndices(s, ByInterval, now, |s|);
    DueIndicesSpec(s, ByInterval, now, |s|);
    forall i | 0 <= i < |s|
      ensures !ShouldRun(Stamp(s, due, now)[i], now)
    {
      if i in due {
        MarkedNotDue(s[i], now);
      }
    }
  }

  /** `tasks[idx].enabled = !tasks[idx].enabled`, guarded by `idx < len`. */
  function Toggle(s: seq<Task>, idx: nat): (r: seq<Task>)
    ensures |r| == |s|
    ensures forall i :: 0 <= i < |s| && i != idx ==> r[i] == s[i]
    ensures idx < |s| ==> r[idx] == s[idx].(enabled := !s[idx].enabled)
  {
    if idx < |s| then s[idx := s[idx].(enabled := !s[idx].enabled)] else s
  }

  /** Toggling the same index twice restores the vector. */
  lemma ToggleTwice(s: seq<Task>, idx: nat)
    ensures Toggle(Toggle(s, idx), idx) == s
  {
  }

  /** `Vec::remove(idx)`: the tasks after `idx` shift down by one, in order. */
  function RemoveAt(s: seq<Task>, idx: nat): (r: seq<Task>)
    requires idx < |s|
    ensures |r| == |s| - 1
    ensures forall k :: 0 <= k < idx ==> r[k] == s[k]
    ensures forall k :: idx <= k < |r| ==> r[k] == s[k + 1]
  {
    s[..idx] + s[idx + 1..]
  }

  /** Removal drops exactly the task at the index. */
  lemma RemoveAtMultiset(s: seq<Task>, idx: nat)
    requires idx < |s|
    ensures multiset(RemoveAt(s, idx)) + multiset{s[idx]} == multiset(s)
  {
    assert s == s[..idx] + [s[idx]] + s[idx + 1..];
  }
}

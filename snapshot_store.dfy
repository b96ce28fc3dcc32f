/**
 * The plain persistence helpers the command-line snapshots link against: a
 * strict decode of the whole file and a fixed-temp write and rename. Only
 * what their callers observe is kept.
 */
module SnapshotStore {
  import opened Model

  /** The target file: absent, present but not a decodable task list, or a task list. */
  datatype Stored = Missing | Corrupt | Holds(tasks: seq<Task>)

  /** `load_tasks().unwrap_or_default()`: a missing or undecodable file is the empty list. */
  function LoadOrDefault(s: Stored): seq<Task>
  {
    if s.Holds? then s.tasks else []
  }

  /** `save_tasks`: when the write and the rename succeed, the file holds exactly `ts`. */
  function Saved(s: Stored, ts: seq<Task>, ok: bool): (r: Stored)
    ensures ok ==> LoadOrDefault(r) == ts
    ensures !ok ==> r == s
  {
    if ok then Holds(ts) else s
  }
}

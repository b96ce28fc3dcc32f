/**
 * The persistence engine: the configuration directory as a map from file
 * names to contents, `load_tasks` and `save_tasks` of the library, and the
 * desktop application's own `save_tasks_cmd`.
 */
module Storage {
  import opened Wrappers
  import opened Model
  import opened Codec
  import opened Merge
  import Text

  /**
   * What the directory holds under a name: bytes that cannot be read as text,
   * text that is not JSON, or a JSON document.
   */
  datatype Content = Unreadable | Malformed | Doc(json: Json)

  /** The failures the engine reports to its callers. */
  datatype Error =
    | NoConfigDir    // no configuration directory could be resolved
    | ReadFailed     // the file exists but could not be read as text
    | ParseFailed    // the text is not JSON
    | NotAnArray     // the document is JSON but not an array
    | RemoveFailed   // deleting the file for an empty save failed
    | WriteFailed    // writing the temporary file failed
    | RenameFailed   // renaming the temporary file onto the target failed

  /**
   * Which of the file operations of one save fail. `fs::write` creates the
   * file before writing it, so a failed write may leave a partial temporary
   * file behind: `leftover` is what it then holds, `None` when the file was
   * never created.
   */
  datatype Faults = Faults(remove: bool, write: bool, rename: bool, leftover: Option<Content>)

  /** The file name of the task list inside the configuration directory. */
  const Target: string := "tasks.json"

  /** Loads attempted before a merge before giving up. */
  const MaxRetries: nat := 3

  /** The largest value `rand::Rng::gen::<u64>()` draws. */
  const U64Max: nat := 0xFFFF_FFFF_FFFF_FFFF

  /**
   * `path.with_extension(format!("tmp.{}", n))`: the extension `json` of
   * `tasks.json` is replaced, giving `tasks.tmp.<n>`.
   */
  function TempName(n: nat): string
  {
    "tasks.tmp." + Text.Decimal(n)
  }

  /** `set_extension("json.tmp")` on `tasks.json`: the application's fixed temporary file. */
  const CmdTemp: string := "tasks.json.tmp"

  /** The prefix the sweep looks for: the target's full name followed by `.tmp.`. */
  const StrayPrefix: string := "tasks.json.tmp."

  /** What the sweep deletes. */
  predicate IsStray(name: string)
  {
    |StrayPrefix| <= |name| && name[..|StrayPrefix|] == StrayPrefix
  }

  /**
   * The sweep never deletes the target, nor any temporary file this code
   * creates: neither `tasks.tmp.<n>` nor `tasks.json.tmp` starts with
   * `tasks.json.tmp.`.
   */
  lemma SweepSparesOwnFiles(n: nat)
    ensures !IsStray(Target) && !IsStray(CmdTemp) && !IsStray(TempName(n))
    ensures TempName(n) != Target
  {
    assert TempName(n)[6] == 't' && StrayPrefix[6] == 'j';
  }

  function Pow2(k: nat): (p: nat)
    ensures p >= 1
  {
    if k == 0 then 1 else 2 * Pow2(k - 1)
  }

  /** `10 * (1 << retry_count)` milliseconds, the pause before the next load. */
  function Backoff(retry: nat): nat
  {
    10 * Pow2(retry)
  }

  /** The pauses requested after `k` failed loads. */
  function Delays(k: nat): seq<nat>
  {
    if k == 0 then [] else Delays(k - 1) + [Backoff(k)]
  }

  /** Two failed loads pause 20 ms and then 40 ms. */
  lemma DelaysBeforeGivingUp()
    ensures Delays(MaxRetries - 1) == [20, 40]
  {
  }

  /** `load_tasks` on the target's content: strict decoding first, then the fallback. */
  function Decode(content: Content, c: Chrono): Result<seq<Task>, Error>
  {
    match content
    case Unreadable => Err(ReadFailed)
    case Malformed => Err(ParseFailed)
    case Doc(j) =>
      var strict := StrictDecode(j, c);
      if strict.Some? then Ok(strict.value)
      else if j.Arr? then Ok(Fallback(j.items, c))
      else Err(NotAnArray)
  }

  /** What `load_tasks` returns for a directory: a missing file is the empty list. */
  function LoadFrom(located: bool, files: map<string, Content>, c: Chrono): Result<seq<Task>, Error>
  {
    if !located then Err(NoConfigDir)
    else if Target !in files then Ok([])
    else Decode(files[Target], c)
  }

  /** The directory after `fs::write` to `tmp` failed, leaving `leftover` there if anything. */
  function AfterFailedWrite(files: map<string, Content>, tmp: string, leftover: Option<Content>): map<string, Content>
  {
    if leftover.Some? then files[tmp := leftover.value] else files
  }

  /**
   * A failed write to a temporary file changes nothing but that file: every
   * other entry keeps its content, and the task list still loads as before.
   */
  lemma FailedWriteSparesOthers(files: map<string, Content>, tmp: string, leftover: Option<Content>, c: Chrono)
    requires tmp != Target
    ensures forall n :: n != tmp ==> (n in AfterFailedWrite(files, tmp, leftover) <==> n in files)
    ensures forall n :: n != tmp && n in files ==> AfterFailedWrite(files, tmp, leftover)[n] == files[n]
    ensures forall located :: LoadFrom(located, AfterFailedWrite(files, tmp, leftover), c) == LoadFrom(located, files, c)
  {
  }

  /**
   * A partial `tasks.tmp.<n>` that a failed write leaves behind outlives every
   * later sweep, so it stays in the directory for good.
   */
  lemma LeftoverNeverSwept(files: map<string, Content>, n: nat, c: Content)
    ensures TempName(n) in Swept(files[TempName(n) := c])
    ensures Swept(files[TempName(n) := c])[TempName(n)] == c
  {
    SweepSparesOwnFiles(n);
  }

  /** The directory once the sweep has deleted every stray temporary file. */
  function Swept(files: map<string, Content>): map<string, Content>
  {
    map n | n in files && !IsStray(n) :: files[n]
  }

  /** A missing file loads as the empty list, not as an error. */
  lemma LoadMissing(files: map<string, Content>, c: Chrono)
    requires Target !in files
    ensures LoadFrom(true, files, c) == Ok([])
  {
  }

  /** Unreadable bytes, text that is not JSON, and a document that is not an array are errors. */
  lemma LoadErrors(files: map<string, Content>, c: Chrono)
    requires Target in files
    ensures files[Target] == Unreadable ==> LoadFrom(true, files, c) == Err(ReadFailed)
    ensures files[Target] == Malformed ==> LoadFrom(true, files, c) == Err(ParseFailed)
    ensures files[Target].Doc? && !files[Target].json.Arr? ==> LoadFrom(true, files, c) == Err(NotAnArray)
  {
  }

  /**
   * An array never fails to load: it gives one task per element, and when the
   * strict decoder refuses it, each task is the fallback's reading of its element.
   */
  lemma LoadArray(items: seq<Json>, c: Chrono)
    ensures Decode(Doc(Arr(items)), c).Ok?
    ensures |Decode(Doc(Arr(items)), c).value| == |items|
    ensures StrictDecode(Arr(items), c).None? ==>
      forall k :: 0 <= k < |items| ==> Decode(Doc(Arr(items)), c).value[k] == ProjectTask(items[k], c)
  {
  }

  /** A document with a lower-case interval and no `last_run` still loads, as never run. */
  lemma LoadLenientExample(c: Chrono)
    ensures Decode(Doc(Arr([Obj(map["name" := Str("X"), "interval" := Str("hourly"), "enabled" := Bool(true)])])), c)
      == Ok([Task("X", Hourly, None, true)])
  {
    var v := Obj(map["name" := Str("X"), "interval" := Str("hourly"), "enabled" := Bool(true)]);
    assert Get(v, "interval") == Some(Str("hourly"));
    assert VariantNamed("hourly") == None;
    assert StrictTask(v, c) == None;
    assert Get(v, "name") == Some(Str("X"));
    assert Get(v, "enabled") == Some(Bool(true));
    assert Get(v, "last_run") == None;
    assert StrictDecode(Arr([v]), c) == None;
    assert ProjectTask(v, c) == Task("X", Hourly, None, true);
    assert Fallback([v], c) == [ProjectTask(v, c)];
  }

  /** What the save engine writes is what a later load returns. */
  lemma LoadWritten(files: map<string, Content>, ts: seq<Task>, c: Chrono)
    requires ReadsBack(c)
    requires Target in files && files[Target] == Doc(Encode(ts, c))
    ensures LoadFrom(true, files, c) == Ok(ts)
  {
    StrictRoundTrip(ts, c);
  }

  /** The sweep keeps the target's content. */
  lemma SweptKeepsTarget(files: map<string, Content>)
    ensures Target in Swept(files) <==> Target in files
    ensures Target in files ==> Swept(files)[Target] == files[Target]
  {
    SweepSparesOwnFiles(0);
  }

  /** What `save_tasks` merges into: the current list, or nothing when there is no file. */
  function CurrentTasks(files: map<string, Content>, c: Chrono): Result<seq<Task>, Error>
  {
    if Target in files then Decode(files[Target], c) else Ok([])
  }

  class Store {
    /** The entries of the configuration directory, by file name. */
    var files: map<string, Content>
    /** The pauses the engine has requested, in milliseconds, oldest first. */
    var sleeps: seq<nat>
    /** Whether `ProjectDirs` resolves a configuration directory at all. */
    const located: bool
    /** chrono's timestamp conversions. */
    const chrono: Chrono

    constructor (located: bool, chrono: Chrono, files: map<string, Content>)
      ensures this.located == located && this.chrono == chrono
      ensures this.files == files && sleeps == []
    {
      this.located := located;
      this.chrono := chrono;
      this.files := files;
      sleeps := [];
    }

    /** `load_tasks`, whose fallback builds its result one element at a time. */
    method Load() returns (r: Result<seq<Task>, Error>)
      ensures r == LoadFrom(located, files, chrono)
    {
      if !located {
        return Err(NoConfigDir);
      }
      if Target !in files {
        return Ok([]);
      }
      match files[Target]
      case Unreadable =>
        return Err(ReadFailed);
      case Malformed =>
        return Err(ParseFailed);
      case Doc(j) =>
        var strict := StrictDecode(j, chrono);
        if strict.Some? {
          return Ok(strict.value);
        }
        if !j.Arr? {
          return Err(NotAnArray);
        }
        var arr := j.items;
        var out: seq<Task> := [];
        var i := 0;
        while i < |arr|
          invariant 0 <= i <= |arr|
          invariant |out| == i
          invariant forall k :: 0 <= k < i ==> out[k] == ProjectTask(arr[k], chrono)
        {
          out := out + [ProjectTask(arr[i], chrono)];
          i := i + 1;
        }
        assert out == Fallback(arr, chrono);
        return Ok(out);
    }

    /** Deletes every directory entry whose name starts with `tasks.json.tmp.`. */
    method Sweep()
      modifies this
      ensures files == Swept(old(files))
      ensures sleeps == old(sleeps)
    {
      var entries := files.Keys;
      while entries != {}
        invariant entries <= old(files).Keys
        invariant sleeps == old(sleeps)
        invariant files == map n | n in old(files) && (n in entries || !IsStray(n)) :: old(files)[n]
        decreases entries
      {
        var name :| name in entries;
        if IsStray(name) {
          files := files - {name};
        }
        entries := entries - {name};
      }
    }

    /**
     * The retry loop of `save_tasks`: a missing file is the empty list; a load
     * that fails is attempted again after 20 ms and then 40 ms, and the third
     * failure is returned.
     */
    method LoadCurrent() returns (r: Result<seq<Task>, Error>)
      requires located
      modifies this
      ensures r == CurrentTasks(files, chrono)
      ensures files == old(files)
      ensures sleeps == old(sleeps) + (if r.Err? then [20, 40] else [])
    {
      var retryCount := 0;
      while true
        invariant 0 <= retryCount < MaxRetries
        invariant files == old(files) && sleeps == old(sleeps) + Delays(retryCount)
        invariant retryCount > 0 ==> CurrentTasks(files, chrono).Err?
        decreases MaxRetries - retryCount
      {
        if Target in files {
          var loaded := Load();
          if loaded.Ok? {
            return Ok(loaded.value);
          }
          if retryCount < MaxRetries - 1 {
            retryCount := retryCount + 1;
            sleeps := sleeps + [Backoff(retryCount)];
          } else {
            DelaysBeforeGivingUp();
            return Err(loaded.error);
          }
        } else {
          return Ok([]);
        }
      }
    }

    /**
     * `save_tasks`: an empty list deletes the file; otherwise the current list
     * is loaded (up to three attempts), merged with `tasks` by name, written to
     * `tasks.tmp.<suffix>`, renamed onto `tasks.json`, and stray temporary
     * files are swept.
     */
    method Save(tasks: seq<Task>, suffix: nat, faults: Faults) returns (r: Result<(), Error>)
      requires suffix <= U64Max
      modifies this
      ensures !located ==> r == Err(NoConfigDir) && files == old(files) && sleeps == old(sleeps)
      ensures located && tasks == [] ==>
        && sleeps == old(sleeps)
        && (if Target in old(files) && faults.remove
            then r == Err(RemoveFailed) && files == old(files)
            else r == Ok(()) && files == old(files) - {Target})
      ensures located && tasks != [] && CurrentTasks(old(files), chrono).Err? ==>
        && r == Err(CurrentTasks(old(files), chrono).error)
        && files == old(files)
        && sleeps == old(sleeps) + [20, 40]
      ensures located && tasks != [] && CurrentTasks(old(files), chrono).Ok? ==>
        var written := Doc(Encode(MergeAll(CurrentTasks(old(files), chrono).value, tasks), chrono));
        && sleeps == old(sleeps)
        && (faults.write ==> r == Err(WriteFailed) && files == AfterFailedWrite(old(files), TempName(suffix), faults.leftover))
        && (!faults.write && faults.rename ==> r == Err(RenameFailed) && files == old(files) - {TempName(suffix)})
        && (!faults.write && !faults.rename ==>
              r == Ok(()) && files == Swept((old(files) - {TempName(suffix)})[Target := written]))
      ensures r.Ok? && tasks == [] ==> LoadFrom(located, files, chrono) == Ok([])
      ensures r.Ok? && tasks != [] && ReadsBack(chrono) ==>
        LoadFrom(located, files, chrono) == Ok(MergeAll(CurrentTasks(old(files), chrono).value, tasks))
    {
      if !located {
        return Err(NoConfigDir);
      }
      if tasks == [] {
        if Target in files {
          if faults.remove {
            return Err(RemoveFailed);
          }
          files := files - {Target};
        }
        return Ok(());
      }

      var loaded := LoadCurrent();
      if loaded.Err? {
        return Err(loaded.error);
      }
      var current := loaded.value;

      var merged := MergeTasks(current, tasks);
      r := Commit(merged, suffix, faults);
    }

    /**
     * The tail of `save_tasks`: write the merged list to `tasks.tmp.<suffix>`,
     * rename it onto `tasks.json` and sweep stray temporary files.
     */
    method Commit(merged: seq<Task>, suffix: nat, faults: Faults) returns (r: Result<(), Error>)
      requires located && suffix <= U64Max
      modifies this
      ensures sleeps == old(sleeps)
      ensures faults.write ==> r == Err(WriteFailed) && files == AfterFailedWrite(old(files), TempName(suffix), faults.leftover)
      ensures !faults.write && faults.rename ==> r == Err(RenameFailed) && files == old(files) - {TempName(suffix)}
      ensures !faults.write && !faults.rename ==>
        r == Ok(()) && files == Swept((old(files) - {TempName(suffix)})[Target := Doc(Encode(merged, chrono))])
      ensures r.Ok? && ReadsBack(chrono) ==> LoadFrom(located, files, chrono) == Ok(merged)
    {
      var written := Doc(Encode(merged, chrono));
      var tmp := TempName(suffix);
      SweepSparesOwnFiles(suffix);
      if faults.write {
        if faults.leftover.Some? {
          files := files[tmp := faults.leftover.value];
        }
        return Err(WriteFailed);
      }
      files := files[tmp := written];
      if faults.rename {
        files := files - {tmp};
        return Err(RenameFailed);
      }
      files := (files - {tmp})[Target := written];
      Sweep();
      SweptKeepsTarget((old(files) - {tmp})[Target := written]);
      if ReadsBack(chrono) {
        LoadWritten(files, merged, chrono);
      }
      return Ok(());
    }

    /**
     * `save_tasks_cmd`: writes exactly `tasks`, with no merge and no special
     * case for the empty list, to `tasks.json.tmp` and renames it onto the target.
     */
    method SaveAll(tasks: seq<Task>, faults: Faults) returns (r: Result<(), Error>)
      modifies this
      ensures sleeps == old(sleeps)
      ensures !located ==> r == Err(NoConfigDir) && files == old(files)
      ensures located && faults.write ==> r == Err(WriteFailed) && files == AfterFailedWrite(old(files), CmdTemp, faults.leftover)
      ensures located && !faults.write && faults.rename ==>
        r == Err(RenameFailed) && files == old(files)[CmdTemp := Doc(Encode(tasks, chrono))]
      ensures located && !faults.write && !faults.rename ==>
        r == Ok(()) && files == (old(files) - {CmdTemp})[Target := Doc(Encode(tasks, chrono))]
      ensures r.Ok? && ReadsBack(chrono) ==> LoadFrom(located, files, chrono) == Ok(tasks)
    {
      if !located {
        return Err(NoConfigDir);
      }
      var written := Doc(Encode(tasks, chrono));
      if faults.write {
        if faults.leftover.Some? {
          files := files[CmdTemp := faults.leftover.value];
        }
        return Err(WriteFailed);
      }
      files := files[CmdTemp := written];
      if faults.rename {
        return Err(RenameFailed);
      }
      files := (files - {CmdTemp})[Target := written];
      if ReadsBack(chrono) {
        LoadWritten(files, tasks, chrono);
      }
      return Ok(());
    }
  }

  /**
   * The library's lifecycle: from any directory, clearing and loading gives the
   * empty list; saving two new tasks and loading gives them back in order, with
   * their flags.
   */
  method Lifecycle(c: Chrono, initial: map<string, Content>)
    returns (afterClear: Result<seq<Task>, Error>, afterSave: Result<seq<Task>, Error>)
    requires ReadsBack(c)
    ensures afterClear == Ok([])
    ensures afterSave == Ok([Task("Task 1", Daily, None, true), Task("Task 2", Weekly, None, false)])
  {
    var store := new Store(true, c, initial);
    var clean := Faults(false, false, false, None);
    var cleared := store.Save([], 0, clean);
    afterClear := store.Load();
    var first := NewTask("Task 1", Daily).(enabled := true);
    var second := NewTask("Task 2", Weekly);
    assert [first, second][..1] == [first] && [first][..0] == [];
    assert MergeAll([], [first]) == Upsert([], first) == [first];
    assert FindByName([first], second.name) == None;
    assert MergeAll([], [first, second]) == Upsert([first], second) == [first, second];
    var saved := store.Save([first, second], 7, clean);
    afterSave := store.Load();
  }
}

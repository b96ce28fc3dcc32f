/**
 * The command-line snapshot: a prompt loop that reads a command word, then
 * lists, adds, toggles or checks the stored tasks.
 */
module Cli {
  import opened Wrappers
  import opened Model
  import opened Due
  import opened TaskList
  import opened SnapshotStore
  import opened Text

  /** `match interval.to_lowercase()`: `hourly` and `weekly` in any case; anything else is daily. */
  function ParseInterval(text: string): Interval
  {
    var word := Lower(text);
    if word == "hourly" then Hourly
    else if word == "weekly" then Weekly
    else Daily
  }

  /** Which words give which interval. */
  lemma ParseIntervalIff(text: string)
    ensures ParseInterval(text) == Hourly <==> Lower(text) == "hourly"
    ensures ParseInterval(text) == Weekly <==> Lower(text) == "weekly"
    ensures ParseInterval(text) == Daily <==> Lower(text) != "hourly" && Lower(text) != "weekly"
  {
  }

  /** The interval names the model types display are read back as those intervals. */
  lemma ParseDisplayed(iv: Interval)
    ensures ParseInterval(Display(iv)) == iv
  {
    var d := Display(iv);
    assert Lower(d)[0] == LowerChar(d[0]);
  }

  /** Case does not matter. */
  lemma ParseUpperCase()
    ensures ParseInterval("HOURLY") == Hourly
  {
    assert Lower("HOURLY") == "hourly";
  }

  /** `hourly` with each letter in either case is hourly. */
  lemma ParseHourlyAnyCase(text: string)
    requires |text| == 6
    requires forall i :: 0 <= i < 6 ==> text[i] == "hourly"[i] || text[i] == "HOURLY"[i]
    ensures ParseInterval(text) == Hourly
  {
    LowerAnyCase(text, "hourly");
  }

  /** `weekly` with each letter in either case is weekly. */
  lemma ParseWeeklyAnyCase(text: string)
    requires |text| == 6
    requires forall i :: 0 <= i < 6 ==> text[i] == "weekly"[i] || text[i] == "WEEKLY"[i]
    ensures ParseInterval(text) == Weekly
  {
    LowerAnyCase(text, "weekly");
  }

  /** Unicode lower-casing maps the Kelvin sign to `k`, so this spelling is weekly too. */
  lemma ParseKelvinSign()
    ensures ParseInterval("WEE\U{212A}LY") == Weekly
  {
    assert Lower("WEE\U{212A}LY") == "weekly";
  }

  /** Unrecognised words fall back to daily. */
  lemma ParseUnknown()
    ensures ParseInterval("monthly") == Daily
    ensures ParseInterval("") == Daily
  {
    assert Lower("monthly")[0] == 'm';
  }

  /** The command a line stands for, from its first whitespace-separated word. */
  datatype Command =
    | Blank
    | List
    | Add
    | Toggle(index: Option<nat>)   // `None`: no argument, or not a `usize`
    | RunCheck
    | Quit
    | Unknown

  /** The `match` on the first word of the tokens. */
  function CommandOf(parts: seq<string>): Command
  {
    if parts == [] then Blank
    else if parts[0] == "list" then List
    else if parts[0] == "add" then Add
    else if parts[0] == "toggle" then
      Toggle(if |parts| >= 2 then ParseUsize(parts[1]) else None)
    else if parts[0] == "run-check" then RunCheck
    else if parts[0] == "quit" then Quit
    else Unknown
  }

  /** `prompt` trims the line, then `split_whitespace` gives the tokens. */
  function ParseCommand(line: string): Command
  {
    CommandOf(SplitWhitespace(Trim(line)))
  }

  /** A line is skipped exactly when it is blank. */
  lemma BlankIff(line: string)
    ensures ParseCommand(line) == Blank <==> AllWhitespace(line)
  {
    TrimEmptyIff(line);
    SplitEmptyIff(Trim(line));
    TrimEnds(line);
  }

  /** `toggle` followed by any `usize` in decimal names that index. */
  lemma ToggleLine(n: nat)
    requires n <= UsizeMax
    ensures ParseCommand("toggle " + Decimal(n)) == Toggle(Some(n))
  {
    var line := "toggle " + Decimal(n);
    var d := Decimal(n);
    assert line == "toggle" + " " + d;
    assert d[|d| - 1] == line[|line| - 1];
    TrimUnchanged(line);
    assert NoWhitespace(d);
    SplitTwoWords("toggle", d);
    ParseDecimal(n);
  }

  /** A line holding one word is read as that word alone. */
  lemma OneWord(w: string)
    requires w != [] && NoWhitespace(w)
    ensures ParseCommand(w) == CommandOf([w])
  {
    TrimUnchanged(w);
    SplitWord(w);
  }

  /** What the loop prints for one command, without the text. */
  datatype Reply =
    | Skipped                       // a blank line
    | Listing(tasks: seq<Task>)     // `list`, one line per stored task
    | ListFailed                    // `list` when the file cannot be loaded
    | Added                         // `add` saved the new list
    | SaveFailed                    // `add` could not save
    | Silent                        // `toggle`, which prints nothing
    | WouldRun(indices: seq<nat>)   // `run-check`, one line per reported index
    | UnknownCommand
    | Quitting

  /** The inputs one pass of the loop reads, and what its environment answers. */
  datatype Input = Input(line: string, name: string, interval: string, now: Instant, saveOk: bool)

  /** `run-check`: the enabled tasks never run or run at least one whole hour ago. */
  method HourlyCheck(tasks: seq<Task>, now: Instant) returns (reported: seq<nat>)
    ensures reported == DueIndices(tasks, EveryHour, now, |tasks|)
    ensures forall k, l :: 0 <= k < l < |reported| ==> reported[k] < reported[l]
    ensures forall i :: 0 <= i < |tasks| ==>
      (i in reported <==> tasks[i].enabled && (tasks[i].lastRun.None? || now - tasks[i].lastRun.value >= SecondsPerHour))
  {
    reported := [];
    for i := 0 to |tasks|
      invariant reported == DueIndices(tasks, EveryHour, now, i)
    {
      var t := tasks[i];
      if t.enabled {
        var should := if t.lastRun.Some? then NumHours(now - t.lastRun.value) >= 1 else true;
        if should {
          reported := reported + [i];
        }
      }
    }
    DueIndicesSpec(tasks, EveryHour, now, |tasks|);
    forall i | 0 <= i < |tasks| ensures Fires(EveryHour, tasks[i], now) <==>
      tasks[i].enabled && (tasks[i].lastRun.None? || now - tasks[i].lastRun.value >= SecondsPerHour)
    {
      EveryHourIff(tasks[i], now);
    }
  }

  /** The check ignores the interval: a daily task last run two hours ago is reported, though not due. */
  lemma HourlyCheckIgnoresInterval(name: string, now: Instant)
    ensures Fires(EveryHour, Task(name, Daily, Some(now - 2 * SecondsPerHour), true), now)
    ensures !ShouldRun(Task(name, Daily, Some(now - 2 * SecondsPerHour), true), now)
  {
    EveryHourIff(Task(name, Daily, Some(now - 2 * SecondsPerHour), true), now);
    DueIff(Task(name, Daily, Some(now - 2 * SecondsPerHour), true), now);
  }

  /** The task `add` builds from the two prompted lines, each trimmed by `prompt`. */
  function PromptedTask(nameLine: string, intervalLine: string): Task
  {
    NewTask(Trim(nameLine), ParseInterval(Trim(intervalLine)))
  }

  /**
   * One pass of the loop as a value: the file afterwards, the reply, and
   * whether the loop reads another line.
   */
  function Step(stored: Stored, command: Command, input: Input): (r: (Stored, Reply, bool))
    ensures r.1 == Quitting <==> command == Quit
    ensures r.2 <==> command != Quit
    ensures r.0 != stored ==> command == Add || command.Toggle?
  {
    var tasks := LoadOrDefault(stored);
    match command
    case Blank => (stored, Skipped, true)
    case List => (stored, if stored.Corrupt? then ListFailed else Listing(tasks), true)
    case Add =>
      (Saved(stored, tasks + [PromptedTask(input.name, input.interval)], input.saveOk),
       if input.saveOk then Added else SaveFailed, true)
    case Toggle(index) =>
      (if index.Some? && index.value < |tasks| then Saved(stored, TaskList.Toggle(tasks, index.value), input.saveOk) else stored,
       Silent, true)
    case RunCheck => (stored, WouldRun(DueIndices(tasks, EveryHour, input.now, |tasks|)), true)
    case Quit => (stored, Quitting, false)
    case Unknown => (stored, UnknownCommand, true)
  }

  /**
   * `add` starts from `load_tasks().unwrap_or_default()`: over a file that is
   * missing or does not decode it saves the new task alone, discarding what
   * the file held, and a following `list` shows exactly that task; over a
   * task list it appends. A failed save leaves the file as it was.
   */
  lemma AddOverUnreadable(stored: Stored, input: Input, next: Input)
    ensures input.saveOk && !stored.Holds? ==>
      && Step(stored, Add, input).0 == Holds([PromptedTask(input.name, input.interval)])
      && Step(Step(stored, Add, input).0, List, next).1 == Listing([PromptedTask(input.name, input.interval)])
    ensures input.saveOk && stored.Holds? ==>
      Step(stored, Add, input).0 == Holds(stored.tasks + [PromptedTask(input.name, input.interval)])
    ensures !input.saveOk ==> Step(stored, Add, input).0 == stored && Step(stored, Add, input).1 == SaveFailed
  {
  }

  /** The command each line parses to. */
  function Commands(inputs: seq<Input>): (cs: seq<Command>)
    ensures |cs| == |inputs|
    ensures forall k :: 0 <= k < |inputs| ==> cs[k] == ParseCommand(inputs[k].line)
  {
    seq(|inputs|, k requires 0 <= k < |inputs| => ParseCommand(inputs[k].line))
  }

  /**
   * The session after its first `n` lines as a value, given the command each
   * line parses to: the file, the replies so far and whether the loop is still
   * reading. Once a line says `quit`, later lines change nothing.
   */
  function Replay(stored: Stored, commands: seq<Command>, inputs: seq<Input>, n: nat): (r: (Stored, seq<Reply>, bool))
    requires |commands| == |inputs| && n <= |inputs|
    ensures |r.1| <= n
    ensures r.2 ==> |r.1| == n
  {
    if n == 0 then (stored, [], true)
    else
      var before := Replay(stored, commands, inputs, n - 1);
      if !before.2 then before
      else
        var (after, reply, more) := Step(before.0, commands[n - 1], inputs[n - 1]);
        (after, before.1 + [reply], more)
  }

  /** After the loop stops, further lines leave the session as it is. */
  lemma {:induction false} ReplaySettles(stored: Stored, commands: seq<Command>, inputs: seq<Input>, n: nat, m: nat)
    requires |commands| == |inputs| && n <= m <= |inputs|
    requires !Replay(stored, commands, inputs, n).2
    ensures Replay(stored, commands, inputs, m) == Replay(stored, commands, inputs, n)
    decreases m
  {
    if m > n {
      ReplaySettles(stored, commands, inputs, n, m - 1);
    }
  }

  /**
   * The replies of a loop that stops at its first `quit`: `quit` is answered
   * exactly on the lines that say so, only as the last reply, and the loop
   * goes on (`more`) exactly when none was answered.
   */
  ghost predicate StopsAtQuit(replies: seq<Reply>, commands: seq<Command>, more: bool)
    requires |replies| <= |commands|
  {
    && (forall k :: 0 <= k < |replies| ==> (replies[k] == Quitting <==> commands[k] == Quit))
    && (forall k :: 0 <= k < |replies| - 1 ==> replies[k] != Quitting)
    && (more <==> Quitting !in replies)
    && (!more ==> replies != [] && replies[|replies| - 1] == Quitting)
  }

  /** One more reply, for a loop still going, keeps that shape. */
  lemma StopsExtend(replies: seq<Reply>, commands: seq<Command>, reply: Reply, more: bool)
    requires |replies| < |commands| && StopsAtQuit(replies, commands, true)
    requires reply == Quitting <==> commands[|replies|] == Quit
    requires more <==> reply != Quitting
    ensures StopsAtQuit(replies + [reply], commands, more)
  {
    var r := replies + [reply];
    assert forall k :: 0 <= k < |replies| ==> r[k] == replies[k];
  }

  /** Every session has that shape. */
  lemma {:induction false} ReplayStops(stored: Stored, commands: seq<Command>, inputs: seq<Input>, n: nat)
    requires |commands| == |inputs| && n <= |inputs|
    ensures StopsAtQuit(Replay(stored, commands, inputs, n).1, commands, Replay(stored, commands, inputs, n).2)
  {
    if n > 0 {
      ReplayStops(stored, commands, inputs, n - 1);
      var before := Replay(stored, commands, inputs, n - 1);
      if before.2 {
        var step := Step(before.0, commands[n - 1], inputs[n - 1]);
        StopsExtend(before.1, commands, step.1, step.2);
      }
    }
  }

  /**
   * Where the loop stops, after every line or right after a `quit`, is where
   * the whole session ends, and there its replies say `quit` exactly for the
   * lines that do.
   */
  lemma SessionEnds(stored: Stored, inputs: seq<Input>, i: nat)
    requires i <= |inputs|
    requires i == |inputs| || !Replay(stored, Commands(inputs), inputs, i).2
    ensures Replay(stored, Commands(inputs), inputs, |inputs|) == Replay(stored, Commands(inputs), inputs, i)
    ensures var r := Replay(stored, Commands(inputs), inputs, |inputs|);
      && (forall k :: 0 <= k < |r.1| ==> (r.1[k] == Quitting <==> ParseCommand(inputs[k].line) == Quit))
      && (forall k :: 0 <= k < |r.1| - 1 ==> r.1[k] != Quitting)
      && (r.2 <==> |r.1| == |inputs| && Quitting !in r.1)
  {
    var commands := Commands(inputs);
    if i < |inputs| {
      ReplaySettles(stored, commands, inputs, i, |inputs|);
    }
    ReplayStops(stored, commands, inputs, |inputs|);
  }

  class Shell {
    /** The task file the snapshot's persistence helpers read and write. */
    var stored: Stored
    /** Whether the loop goes on reading commands. */
    var running: bool

    constructor (stored: Stored)
      ensures this.stored == stored && running
    {
      this.stored := stored;
      running := true;
    }

    /** `add`: appends the prompted task to the loaded list and saves it. */
    method AddCommand(input: Input) returns (reply: Reply)
      modifies this
      ensures stored == Saved(old(stored), LoadOrDefault(old(stored)) + [PromptedTask(input.name, input.interval)], input.saveOk)
      ensures reply == if input.saveOk then Added else SaveFailed
      ensures running == old(running)
    {
      var tasks := LoadOrDefault(stored);
      tasks := tasks + [PromptedTask(input.name, input.interval)];
      stored := Saved(stored, tasks, input.saveOk);
      reply := if input.saveOk then Added else SaveFailed;
    }

    /** `toggle <idx>`: flips and saves only when the index parsed and is in range. */
    method ToggleCommand(index: Option<nat>, saveOk: bool)
      modifies this
      ensures index.Some? && index.value < |LoadOrDefault(old(stored))| ==>
        stored == Saved(old(stored), TaskList.Toggle(LoadOrDefault(old(stored)), index.value), saveOk)
      ensures !(index.Some? && index.value < |LoadOrDefault(old(stored))|) ==> stored == old(stored)
      ensures running == old(running)
    {
      if index.Some? {
        var idx := index.value;
        var tasks := LoadOrDefault(stored);
        if idx < |tasks| {
          tasks := tasks[idx := tasks[idx].(enabled := !tasks[idx].enabled)];
          stored := Saved(stored, tasks, saveOk);
        }
      }
    }

    /** One pass of the loop, for the command its line parses to. */
    method Handle(command: Command, input: Input) returns (reply: Reply)
      requires running
      modifies this
      ensures command == Blank ==> reply == Skipped && stored == old(stored) && running
      ensures command == List ==>
        (&& stored == old(stored) && running
         && reply == if old(stored).Corrupt? then ListFailed else Listing(LoadOrDefault(old(stored))))
      ensures command == Add ==>
        (var added := LoadOrDefault(old(stored)) + [PromptedTask(input.name, input.interval)];
         && stored == Saved(old(stored), added, input.saveOk) && running
         && reply == if input.saveOk then Added else SaveFailed)
      ensures command.Toggle? ==>
        (&& reply == Silent && running
         && if command.index.Some? && command.index.value < |LoadOrDefault(old(stored))|
            then stored == Saved(old(stored), TaskList.Toggle(LoadOrDefault(old(stored)), command.index.value), input.saveOk)
            else stored == old(stored))
      ensures command == RunCheck ==>
        (&& stored == old(stored) && running
         && reply == WouldRun(DueIndices(LoadOrDefault(old(stored)), EveryHour, input.now, |LoadOrDefault(old(stored))|)))
      ensures command == Quit ==> reply == Quitting && stored == old(stored) && !running
      ensures command == Unknown ==> reply == UnknownCommand && stored == old(stored) && running
      ensures reply == Quitting <==> command == Quit
      ensures running <==> reply != Quitting
      ensures (stored, reply, running) == Step(old(stored), command, input)
    {
      match command
      case Blank =>
        reply := Skipped;
      case List =>
        reply := if stored.Corrupt? then ListFailed else Listing(LoadOrDefault(stored));
      case Add =>
        reply := AddCommand(input);
      case Toggle(index) =>
        ToggleCommand(index, input.saveOk);
        reply := Silent;
      case RunCheck =>
        var reported := HourlyCheck(LoadOrDefault(stored), input.now);
        reply := WouldRun(reported);
      case Quit =>
        running := false;
        reply := Quitting;
      case Unknown =>
        reply := UnknownCommand;
    }

    /** The prompt loop: handles inputs in order and stops right after the first `quit`. */
    method Session(inputs: seq<Input>) returns (replies: seq<Reply>)
      requires running
      modifies this
      ensures stored == Replay(old(stored), Commands(inputs), inputs, |inputs|).0
      ensures replies == Replay(old(stored), Commands(inputs), inputs, |inputs|).1
      ensures running == Replay(old(stored), Commands(inputs), inputs, |inputs|).2
      ensures forall k :: 0 <= k < |replies| ==> (replies[k] == Quitting <==> ParseCommand(inputs[k].line) == Quit)
      ensures forall k :: 0 <= k < |replies| - 1 ==> replies[k] != Quitting
      ensures running <==> |replies| == |inputs| && Quitting !in replies
    {
      ghost var commands := Commands(inputs);
      replies := [];
      var i := 0;
      while i < |inputs| && running
        invariant 0 <= i <= |inputs| && |replies| == i
        invariant stored == Replay(old(stored), commands, inputs, i).0
        invariant replies == Replay(old(stored), commands, inputs, i).1
        invariant running == Replay(old(stored), commands, inputs, i).2
      {
        var command := ParseCommand(inputs[i].line);
        assert command == commands[i];
        var reply := Handle(command, inputs[i]);
        replies := replies + [reply];
        i := i + 1;
      }
      SessionEnds(old(stored), inputs, i);
    }
  }
}

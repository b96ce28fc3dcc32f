/** The task record: its interval, its display form, creation and completion. */
module Model {
  import opened Wrappers

  /** How often a task repeats. */
  datatype Interval = Hourly | Daily | Weekly

  /** A timestamp, in whole seconds since a fixed epoch. */
  type Instant = int

  /** A reminder entry. `lastRun == None` means the task has never run. */
  datatype Task = Task(name: string, interval: Interval, lastRun: Option<Instant>, enabled: bool)

  /** `Display for Interval`: each interval prints as its own variant name. */
  function Display(iv: Interval): string
  {
    match iv
    case Hourly => "Hourly"
    case Daily => "Daily"
    case Weekly => "Weekly"
  }

  /** The names `Display` produces. */
  lemma DisplayNames()
    ensures Display(Hourly) == "Hourly"
    ensures Display(Daily) == "Daily"
    ensures Display(Weekly) == "Weekly"
  {
  }

  /** Distinct intervals print differently, so the printed form identifies the interval. */
  lemma DisplayInjective(a: Interval, b: Interval)
    ensures Display(a) == Display(b) <==> a == b
  {
  }

  /** `Task::new`: a fresh task, disabled and never run. */
  function NewTask(name: string, interval: Interval): (t: Task)
    ensures t.name == name && t.interval == interval
    ensures t.lastRun == None && !t.enabled
  {
    Task(name, interval, None, false)
  }

  /** `Task::mark_complete`: records `now` as the time of the last run. */
  function MarkComplete(t: Task, now: Instant): (r: Task)
    ensures r.lastRun == Some(now)
    ensures r.name == t.name && r.interval == t.interval && r.enabled == t.enabled
  {
    t.(lastRun := Some(now))
  }
}

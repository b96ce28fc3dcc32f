/**
 * The persisted format of the task list: a JSON array with one object per task.
 * The JSON text layer of serde_json is outside the model; a document is taken
 * as its parsed value. This module holds the encoder (serde's derived
 * `Serialize`), the strict decoder (serde's derived `Deserialize` for
 * `Vec<Task>`) and the field-by-field fallback of `load_tasks`.
 */
module Codec {
  import opened Wrappers
  import opened Model

  /** A parsed JSON value. An object is a map from member names to values. */
  datatype Json = Null | Bool(b: bool) | Num(n: int) | Str(s: string) | Arr(items: seq<Json>) | Obj(fields: map<string, Json>)

  /** `Value::get(key)`: the member `key` of an object, nothing for any other value. */
  function Get(v: Json, key: string): Option<Json>
  {
    if v.Obj? && key in v.fields then Some(v.fields[key]) else None
  }

  /** `and_then(as_str)` on an optional member. */
  function AsStr(v: Option<Json>): Option<string>
  {
    if v.Some? && v.value.Str? then Some(v.value.s) else None
  }

  /** `and_then(as_bool)` on an optional member. */
  function AsBool(v: Option<Json>): Option<bool>
  {
    if v.Some? && v.value.Bool? then Some(v.value.b) else None
  }

  /**
   * chrono's conversions between instants and text, which the model takes as
   * given: `format` is how serde writes a `DateTime<Local>`, `parse` how serde
   * reads one back (chrono's relaxed RFC 3339 reader), and `parseRfc3339` is
   * `DateTime::parse_from_rfc3339` followed by the conversion to local time.
   */
  datatype Chrono = Chrono(
    format: Instant -> string,
    parse: string -> Option<Instant>,
    parseRfc3339: string -> Option<Instant>)

  /** serde reads back every timestamp it writes. */
  ghost predicate ReadsBack(c: Chrono)
  {
    forall t :: c.parse(c.format(t)) == Some(t)
  }

  /** The RFC 3339 reader accepts every timestamp serde writes. */
  ghost predicate Rfc3339ReadsBack(c: Chrono)
  {
    forall t :: c.parseRfc3339(c.format(t)) == Some(t)
  }

  // ---------- Encoding ----------

  function EncodeLastRun(last: Option<Instant>, c: Chrono): Json
  {
    match last
    case None => Null
    case Some(t) => Str(c.format(t))
  }

  /** One task as serde writes it: four members, the interval by its variant name. */
  function EncodeTask(t: Task, c: Chrono): Json
  {
    Obj(map[
      "name" := Str(t.name),
      "interval" := Str(Display(t.interval)),
      "last_run" := EncodeLastRun(t.lastRun, c),
      "enabled" := Bool(t.enabled)])
  }

  function EncodeAll(ts: seq<Task>, c: Chrono): (items: seq<Json>)
    ensures |items| == |ts|
  {
    if ts == [] then [] else [EncodeTask(ts[0], c)] + EncodeAll(ts[1..], c)
  }

  /** The document `serde_json::to_string_pretty` writes for a task list. */
  function Encode(ts: seq<Task>, c: Chrono): Json
  {
    Arr(EncodeAll(ts, c))
  }

  // ---------- Strict decoding ----------

  /** serde's reading of a unit variant from its name. */
  function VariantNamed(s: string): Option<Interval>
  {
    if s == "Hourly" then Some(Hourly)
    else if s == "Daily" then Some(Daily)
    else if s == "Weekly" then Some(Weekly)
    else None
  }

  /** Variant names and `Display` are inverse to each other. */
  lemma VariantNamedInverse(s: string, iv: Interval)
    ensures VariantNamed(s) == Some(iv) <==> s == Display(iv)
  {
  }

  /** serde's `Option<DateTime<Local>>` member: absent or null is `None`, a string must parse. */
  function StrictLastRun(v: Option<Json>, c: Chrono): Option<Option<Instant>>
  {
    match v
    case None => Some(None)
    case Some(Null) => Some(None)
    case Some(Str(s)) => if c.parse(s).Some? then Some(Some(c.parse(s).value)) else None
    case Some(_) => None
  }

  /**
   * serde's derived `Deserialize for Task`, object form: `name`, `interval` and
   * `enabled` must be present with the right type, `last_run` may be absent,
   * and other members are ignored.
   */
  function StrictTask(v: Json, c: Chrono): Option<Task>
  {
    if !v.Obj? then None
    else
      var name := AsStr(Get(v, "name"));
      var iv := if AsStr(Get(v, "interval")).Some? then VariantNamed(AsStr(Get(v, "interval")).value) else None;
      var last := StrictLastRun(Get(v, "last_run"), c);
      var enabled := AsBool(Get(v, "enabled"));
      if name.Some? && iv.Some? && last.Some? && enabled.Some? then
        Some(Task(name.value, iv.value, last.value, enabled.value))
      else None
  }

  function StrictList(items: seq<Json>, c: Chrono): (r: Option<seq<Task>>)
    ensures r.Some? ==> |r.value| == |items|
  {
    if items == [] then Some([])
    else
      var head := StrictTask(items[0], c);
      var rest := StrictList(items[1..], c);
      if head.Some? && rest.Some? then Some([head.value] + rest.value) else None
  }

  /** `serde_json::from_str::<Vec<Task>>`, on the parsed document. */
  function StrictDecode(j: Json, c: Chrono): Option<seq<Task>>
  {
    if j.Arr? then StrictList(j.items, c) else None
  }

  /** The strict decoder reads back every task list the encoder writes. */
  lemma {:induction false} StrictRoundTrip(ts: seq<Task>, c: Chrono)
    requires ReadsBack(c)
    ensures StrictList(EncodeAll(ts, c), c) == Some(ts)
    ensures StrictDecode(Encode(ts, c), c) == Some(ts)
  {
    if ts != [] {
      var t := ts[0];
      var v := EncodeTask(t, c);
      assert Get(v, "name") == Some(Str(t.name));
      assert Get(v, "interval") == Some(Str(Display(t.interval)));
      assert Get(v, "enabled") == Some(Bool(t.enabled));
      assert Get(v, "last_run") == Some(EncodeLastRun(t.lastRun, c));
      VariantNamedInverse(Display(t.interval), t.interval);
      assert StrictTask(v, c) == Some(t);
      StrictRoundTrip(ts[1..], c);
      assert EncodeAll(ts, c)[1..] == EncodeAll(ts[1..], c);
      assert ts == [t] + ts[1..];
    }
  }

  // ---------- Fallback decoding ----------

  /** `name`: the string member, else the empty string. */
  function NameOf(v: Json): string
  {
    var s := AsStr(Get(v, "name"));
    if s.Some? then s.value else ""
  }

  /** `interval`: only the four exact spellings `Hourly`, `hourly`, `Weekly`, `weekly` are recognised. */
  function IntervalOf(v: Json): Interval
  {
    var s := AsStr(Get(v, "interval"));
    if s == Some("Hourly") || s == Some("hourly") then Hourly
    else if s == Some("Weekly") || s == Some("weekly") then Weekly
    else Daily
  }

  /** `enabled`: the boolean member, else `false`. */
  function EnabledOf(v: Json): bool
  {
    var b := AsBool(Get(v, "enabled"));
    if b.Some? then b.value else false
  }

  /** `last_run`: a string member that is valid RFC 3339, else never run. */
  function LastRunOf(v: Json, c: Chrono): Option<Instant>
  {
    var s := AsStr(Get(v, "last_run"));
    if s.Some? then c.parseRfc3339(s.value) else None
  }

  /** The task the fallback builds from one array element. */
  function ProjectTask(v: Json, c: Chrono): Task
  {
    Task(NameOf(v), IntervalOf(v), LastRunOf(v, c), EnabledOf(v))
  }

  /** The fallback's output: one task per array element, in order. */
  function Fallback(items: seq<Json>, c: Chrono): (ts: seq<Task>)
    ensures |ts| == |items|
    ensures forall k :: 0 <= k < |items| ==> ts[k] == ProjectTask(items[k], c)
  {
    seq(|items|, k requires 0 <= k < |items| => ProjectTask(items[k], c))
  }

  /** An element that is not an object, or has no usable member, becomes the default task. */
  lemma ProjectDefaults(v: Json, c: Chrono)
    requires !v.Obj? || v.fields == map[]
    ensures ProjectTask(v, c) == Task("", Daily, None, false)
  {
  }

  /** The interval table: which member values give which interval. */
  lemma IntervalTable(v: Json)
    ensures IntervalOf(v) == Hourly <==> Get(v, "interval") in {Some(Str("Hourly")), Some(Str("hourly"))}
    ensures IntervalOf(v) == Weekly <==> Get(v, "interval") in {Some(Str("Weekly")), Some(Str("weekly"))}
    ensures IntervalOf(Obj(map["interval" := Str("HOURLY")])) == Daily
    ensures IntervalOf(Obj(map["interval" := Str("Daily")])) == Daily
  {
  }

  /** A member of the wrong type, or an unparsable timestamp, degrades to the default. */
  lemma WrongTypesDefault(v: Json, c: Chrono)
    requires v.Obj?
    requires Get(v, "name").Some? ==> !Get(v, "name").value.Str?
    requires Get(v, "enabled").Some? ==> !Get(v, "enabled").value.Bool?
    requires Get(v, "last_run").Some? ==>
      (!Get(v, "last_run").value.Str? || c.parseRfc3339(Get(v, "last_run").value.s) == None)
    ensures NameOf(v) == "" && !EnabledOf(v) && LastRunOf(v, c) == None
  {
  }

  /** The fallback, too, reads back every task list the encoder writes. */
  lemma {:induction false} FallbackRoundTrip(ts: seq<Task>, c: Chrono)
    requires Rfc3339ReadsBack(c)
    ensures Fallback(EncodeAll(ts, c), c) == ts
  {
    var items := EncodeAll(ts, c);
    forall k | 0 <= k < |ts| ensures ProjectTask(items[k], c) == ts[k] {
      EncodeAllAt(ts, c, k);
      ProjectEncoded(ts[k], c);
    }
  }

  /** The fallback reads one encoded task back as that task. */
  lemma ProjectEncoded(t: Task, c: Chrono)
    requires Rfc3339ReadsBack(c)
    ensures ProjectTask(EncodeTask(t, c), c) == t
  {
    var v := EncodeTask(t, c);
    assert Get(v, "name") == Some(Str(t.name));
    assert Get(v, "interval") == Some(Str(Display(t.interval)));
    assert Get(v, "enabled") == Some(Bool(t.enabled));
    assert Get(v, "last_run") == Some(EncodeLastRun(t.lastRun, c));
  }

  lemma {:induction false} EncodeAllAt(ts: seq<Task>, c: Chrono, k: nat)
    requires k < |ts|
    ensures EncodeAll(ts, c)[k] == EncodeTask(ts[k], c)
  {
    if k > 0 { EncodeAllAt(ts[1..], c, k - 1); }
  }
}
